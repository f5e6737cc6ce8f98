/**
  kern/mem/vm.c: first-fit allocation over a list of address ranges, each with its list of
  records, and the three-way split on release. The two linked lists are kept as the sequences
  they stand for.
 */
module VirtualSpace {
  import opened Containers
  import opened MemoryLayout

  /** vaddr_t */
  datatype Record = Record(va: nat, pages: nat) {
    function Top(): nat { va + pages * PGSIZE }
  }

  /** vspace_t, without its link; the newest record comes first. */
  datatype Range = Range(begin: nat, end: nat, records: seq<Record>)

  /** uint32_t arithmetic */
  function Wrap(x: nat): nat {
    x % 0x1_0000_0000
  }

  /** MAX_END */
  function MaxEnd(begin: nat): nat {
    if begin < KERN_HIGH_MAPPING then KERN_HIGH_MAPPING else KERN_METADATA
  }

  /** Records lie inside the range, in descending order. */
  ghost predicate RangeOk(r: Range) {
    && (forall j | 0 <= j < |r.records| ::
          r.begin <= r.records[j].va && r.records[j].Top() <= r.end && 0 < r.records[j].pages)
    && (forall j, k | 0 <= j < k < |r.records| :: r.records[k].Top() <= r.records[j].va)
  }

  /** Node 0 is the vspace_t inside the PCB, which never holds records; the others are sorted and disjoint. */
  ghost predicate Inv(s: seq<Range>, begin: nat) {
    && 1 <= |s| && s[0].records == [] && begin < MaxEnd(begin)
    && (1 < |s| ==> s[0].end <= s[1].begin)
    && (forall i | 1 <= i < |s| ::
          RangeOk(s[i]) && s[i].records != [] && begin <= s[i].begin <= s[i].end < MaxEnd(begin))
    && (forall i, j | 1 <= i < j < |s| :: s[i].end <= s[j].begin)
  }

  /** The first range starts at `begin`, with a record there. */
  ghost predicate Anchored(s: seq<Range>, begin: nat) {
    1 < |s| && s[1].records != [] ==> s[1].begin == begin && s[1].records[|s[1].records| - 1].va == begin
  }

  /** All live records. */
  ghost function All(s: seq<Range>): seq<Record> {
    if s == [] then [] else s[0].records + All(s[1..])
  }

  /** Where the walk stands after range i. */
  function LastEnd(s: seq<Range>, begin: nat, i: nat): nat
    requires i < |s|
  {
    if i == 0 then begin else s[i].end
  }

  /** The free bytes behind range i, when another range follows. */
  ghost function Gap(s: seq<Range>, begin: nat, i: nat): int
    requires i + 1 < |s|
  {
    s[i + 1].begin - LastEnd(s, begin, i)
  }

  /** The gap behind range i is the first that holds `amount` pages; behind the last range nothing follows. */
  ghost predicate FirstFit(s: seq<Range>, begin: nat, amount: nat, i: nat) {
    && i < |s|
    && (forall k: nat | k < i :: Gap(s, begin, k) < amount * PGSIZE)
    && (i + 1 < |s| ==> amount * PGSIZE <= Gap(s, begin, i))
  }

  /** The address the request would end at, before uint32_t wraps it. */
  function Limit(s: seq<Range>, begin: nat, amount: nat, i: nat): nat
    requires i < |s|
  {
    LastEnd(s, begin, i) + amount * PGSIZE
  }

  /** The check made only when no range follows. */
  predicate NoSpace(s: seq<Range>, begin: nat, amount: nat, i: nat)
    requires i < |s|
  {
    i + 1 == |s| && MaxEnd(begin) <= Wrap(Limit(s, begin, amount, i))
  }

  /**
    The list after the record is put behind range i. Behind a range without records a new range
    is linked in, and the link to whatever followed is overwritten.
   */
  function Placed(s: seq<Range>, begin: nat, amount: nat, i: nat): seq<Range>
    requires i < |s|
  {
    var at := LastEnd(s, begin, i);
    if s[i].records == [] then
      s[..i] + [s[i].(end := at), Range(at, Wrap(Limit(s, begin, amount, i)), [Record(at, amount)])]
    else
      s[i := Range(s[i].begin, Wrap(s[i].end + amount * PGSIZE), [Record(at, amount)] + s[i].records)]
  }

  /** The list after record j of range k is released. */
  function Dropped(s: seq<Range>, k: nat, j: nat): seq<Range>
    requires 1 <= k < |s| && j < |s[k].records| && (|s[k].records| == 1 ==> k + 1 < |s|)
    requires s[k].records[j].pages * PGSIZE <= s[k].end
  {
    var w, r := s[k], s[k].records[j];
    if |w.records| == 1 then
      (s[..k] + s[k + 1..])[k - 1 := s[k - 1].(end := s[k + 1].begin)]
    else if j == 0 then
      s[k := Range(w.begin, w.end - r.pages * PGSIZE, w.records[1..])]
    else if j == |w.records| - 1 then
      s[k := Range(w.begin + r.pages * PGSIZE, w.end, w.records[..j])]
    else
      s[..k] + [Lower(w, j), Upper(w, j)] + s[k + 1..]
  }

  /** The two ranges left on the sides of record j. */
  function Lower(w: Range, j: nat): Range
    requires j + 1 < |w.records|
  {
    Range(w.records[|w.records| - 1].va, w.records[j].va, w.records[j + 1..])
  }

  function Upper(w: Range, j: nat): Range
    requires j + 1 < |w.records|
  {
    Range(w.records[j].Top(), w.end, w.records[..j])
  }

  /** Record j of range k is at va, and range k does not disappear at the end of the list. */
  ghost predicate Held(s: seq<Range>, va: nat, k: nat, j: nat) {
    1 <= k < |s| && j < |s[k].records| && s[k].records[j].va == va && (|s[k].records| == 1 ==> k + 1 < |s|)
  }

  class Vspace {
    var ranges: seq<Range>

    /** vspace_set(vs, null, 0, 0, null) */
    constructor ()
      ensures ranges == [Range(0, 0, [])]
    {
      ranges := [Range(0, 0, [])];
    }

    /** vir_alloc_pages: ok is false where the source panics for lack of space. */
    method AllocPages(amount: nat, begin: nat) returns (ok: bool, ret: nat, ghost i: nat)
      requires Inv(ranges, begin) && 0 < amount
      modifies this
      ensures FirstFit(old(ranges), begin, amount, i)
      ensures ok <==> !NoSpace(old(ranges), begin, amount, i)
      ensures ok ==> ret == LastEnd(old(ranges), begin, i) && ranges == Placed(old(ranges), begin, amount, i)
      ensures !ok ==> ranges == old(ranges)
    {
      hide RangeOk;
      var lastEnd, worker := begin, 0;
      while worker + 1 < |ranges| && (ranges[worker + 1].begin - lastEnd) / PGSIZE < amount
        invariant worker < |ranges| && lastEnd == LastEnd(ranges, begin, worker)
        invariant forall k: nat | k < worker :: Gap(ranges, begin, k) < amount * PGSIZE
        decreases |ranges| - worker
      {
        lastEnd := ranges[worker + 1].end;
        worker := worker + 1;
      }
      i := worker;
      ghost var s := ranges;
      if worker + 1 == |ranges| && Wrap(lastEnd + amount * PGSIZE) >= MaxEnd(begin) {
        return false, 0, i;
      }
      var w := ranges[worker];
      var r := Record(lastEnd, amount);
      if w.records == [] {
        var temp := Range(lastEnd, Wrap(lastEnd + amount * PGSIZE), [r]);
        ranges := ranges[..worker] + [w.(end := temp.begin), temp];
      } else {
        ranges := ranges[worker := Range(w.begin, Wrap(w.end + amount * PGSIZE), Inserted(w.records, 0, r))];
        InsertedFirst(w.records, r);
      }
      assert ranges == Placed(s, begin, amount, worker);
      return true, lastEnd, i;
    }

    /** vir_release_pages; k and j say where the record is. */
    method ReleasePages(va: nat, ghost begin: nat, ghost k: nat, ghost j: nat) returns (r: Record)
      requires Inv(ranges, begin) && Held(ranges, va, k, j)
      modifies this
      ensures r == old(ranges)[k].records[j] && r.pages * PGSIZE <= old(ranges)[k].end
      ensures ranges == Dropped(old(ranges), k, j)
    {
      hide Inv, RangeOk, Removed;
      ghost var s := ranges;
      OneHolder(s, begin, va, k, j);
      var worker := 0;
      while !(ranges[worker].begin <= va < ranges[worker].end)
        invariant worker <= k
        decreases k - worker
      {
        worker := worker + 1;
      }
      var w := ranges[worker];
      var i := 1;
      while w.records[i - 1].va != va
        invariant 1 <= i <= j + 1
        decreases j + 1 - i
      {
        i := i + 1;
      }
      r := w.records[i - 1];
      var left := Removed(w.records, i - 1);
      RemovedParts(w.records, j);
      if left == [] {
        var prev := ranges[worker - 1].(end := ranges[worker + 1].begin);
        ranges := ranges[..worker] + ranges[worker + 1..];
        ranges := ranges[worker - 1 := prev];
      } else if i == 1 {
        ranges := ranges[worker := Range(w.begin, w.end - r.pages * PGSIZE, left)];
      } else if i == |w.records| {
        ranges := ranges[worker := Range(w.begin + r.pages * PGSIZE, w.end, left)];
      } else {
        var moved;
        left, moved := MoveTail(left, i - 1);
        ranges := ranges[..worker] + [Range(moved[|moved| - 1].va, va, moved), Range(r.Top(), w.end, left)]
                  + ranges[worker + 1..];
      }
      assert ranges == Dropped(s, k, j);
    }
  }

  /** The inner loop of the release: the records behind position j move to a new list, in order. */
  method MoveTail(records: seq<Record>, j: nat) returns (left: seq<Record>, moved: seq<Record>)
    requires j <= |records|
    ensures left == records[..j] && moved == records[j..]
  {
    left, moved := records, [];
    while j < |left|
      invariant |left| + |moved| == |records| && j <= |left|
      invariant left == records[..j] + records[j + |moved|..] && moved == records[j..j + |moved|]
      decreases |left|
    {
      RemovedNext(records, j, |moved|);
      moved := moved + [left[j]];
      left := Removed(left, j);
    }
  }

  lemma InsertedFirst<T>(q: seq<T>, x: T)
    ensures Inserted(q, 0, x) == [x] + q
  {
  }

  lemma RemovedParts<T>(q: seq<T>, j: nat)
    requires j < |q|
    ensures Removed(q, j) == q[..j] + q[j + 1..] && |Removed(q, j)| == |q| - 1
    ensures j == 0 ==> Removed(q, j) == q[1..]
    ensures j == |q| - 1 ==> Removed(q, j) == q[..j]
    ensures Removed(q, j)[..j] == q[..j] && Removed(q, j)[j..] == q[j + 1..]
  {
  }

  /** Moving one more node behind position j to the new list. */
  lemma RemovedNext<T>(q: seq<T>, j: nat, m: nat)
    requires j + m < |q|
    ensures var left := q[..j] + q[j + m..];
            && |left| == |q| - m && left[j] == q[j + m]
            && Removed(left, j) == q[..j] + q[j + m + 1..]
    ensures q[j..j + m] + [q[j + m]] == q[j..j + m + 1]
  {
  }

  /** The walk stops at the range and at the record that hold va. */
  lemma OneHolder(s: seq<Range>, begin: nat, va: nat, k: nat, j: nat)
    requires Inv(s, begin) && Held(s, va, k, j)
    ensures s[k].begin <= va < s[k].end && s[k].records[j].pages * PGSIZE <= s[k].end
    ensures forall i: nat | i < k :: !(s[i].begin <= va < s[i].end)
    ensures forall i: nat | i < j :: s[k].records[i].va != va
  {
    assert RangeOk(s[k]);
    assert s[0].end <= s[1].begin <= s[k].begin;
  }

  /** Live records never overlap. */
  lemma LiveDisjoint(s: seq<Range>, begin: nat, k: nat, j: nat, k': nat, j': nat)
    requires Inv(s, begin) && k < |s| && k' < |s| && j < |s[k].records| && j' < |s[k'].records|
    requires (k, j) != (k', j')
    ensures s[k].records[j].Top() <= s[k'].records[j'].va || s[k'].records[j'].Top() <= s[k].records[j].va
    ensures begin <= s[k].records[j].va && s[k].records[j].Top() < KERN_METADATA
    ensures begin < KERN_HIGH_MAPPING ==> s[k].records[j].Top() < KERN_HIGH_MAPPING
  {
    assert RangeOk(s[k]) && RangeOk(s[k']);
  }

  /**
    The address handed out is free: no live record overlaps it, and it ends below the limit, which
    for a process is the kernel's high half, unless its end wraps around.
   */
  lemma AllocFree(s: seq<Range>, begin: nat, amount: nat, i: nat, k: nat, j: nat)
    requires Inv(s, begin) && 0 < amount && FirstFit(s, begin, amount, i) && !NoSpace(s, begin, amount, i)
    requires k < |s| && j < |s[k].records|
    ensures Limit(s, begin, amount, i) < 0x1_0000_0000 <==>
            Limit(s, begin, amount, i) < if begin < KERN_HIGH_MAPPING then KERN_HIGH_MAPPING else KERN_METADATA
    ensures begin <= LastEnd(s, begin, i)
    ensures s[k].records[j].Top() <= LastEnd(s, begin, i) || Limit(s, begin, amount, i) <= s[k].records[j].va
  {
    assert 1 <= k ==> s[k].begin <= s[k].records[j].va && s[k].records[j].Top() <= s[k].end by {
      assert RangeOk(s[k]);
    }
    if Limit(s, begin, amount, i) < 0x1_0000_0000 {
      LimitBelow(s, begin, amount, i);
    }
    hide RangeOk, NoSpace;
    if 1 <= k <= i {
      assert s[k].end <= s[i].end;
    } else if i < k {
      assert s[i + 1].begin <= s[k].begin;
    }
  }

  /**
    A successful request keeps ranges sorted, disjoint and inside the limit exactly when its end
    does not wrap around 2^32.
   */
  lemma AllocKeepsInvIff(s: seq<Range>, begin: nat, amount: nat, i: nat)
    requires Inv(s, begin) && 0 < amount && FirstFit(s, begin, amount, i) && !NoSpace(s, begin, amount, i)
    ensures Inv(Placed(s, begin, amount, i), begin) <==> Limit(s, begin, amount, i) < 0x1_0000_0000
  {
    var n := Placed(s, begin, amount, i);
    var at := if s[i].records == [] then i + 1 else i;
    assert n[at].records[0] == Record(LastEnd(s, begin, i), amount);
    if Limit(s, begin, amount, i) < 0x1_0000_0000 {
      PlacedOk(s, begin, amount, i);
    } else {
      assert Wrap(Limit(s, begin, amount, i)) == n[at].end < 0x1_0000_0000;
      assert !RangeOk(n[at]);
    }
  }

  /** A request of 2^20 pages wraps to nothing, passes the check, and gets a record that spans 4 GB. */
  lemma WrapExample(begin: nat)
    requires begin < MaxEnd(begin)
    ensures var s := [Range(0, 0, [])];
            && Inv(s, begin) && FirstFit(s, begin, 0x10_0000, 0) && !NoSpace(s, begin, 0x10_0000, 0)
            && Placed(s, begin, 0x10_0000, 0)[1] == Range(begin, begin, [Record(begin, 0x10_0000)])
            && !Inv(Placed(s, begin, 0x10_0000, 0), begin)
  {
    var s := [Range(0, 0, [])];
    AllocKeepsInvIff(s, begin, 0x10_0000, 0);
  }

  lemma GrownOk(r: Range, pages: nat)
    requires RangeOk(r) && r.begin <= r.end && 0 < pages
    ensures RangeOk(Range(r.begin, r.end + pages * PGSIZE, [Record(r.end, pages)] + r.records))
  {
    var n := [Record(r.end, pages)] + r.records;
    assert forall j | 1 <= j < |n| :: n[j] == r.records[j - 1];
  }

  /** One range may be replaced by another that stays clear of its neighbours. */
  lemma ReplaceOk(s: seq<Range>, begin: nat, i: nat, r: Range)
    requires Inv(s, begin) && 1 <= i < |s|
    requires RangeOk(r) && r.records != [] && s[i].begin <= r.begin <= r.end
    requires r.end < MaxEnd(begin) && (i + 1 < |s| ==> r.end <= s[i + 1].begin)
    ensures Inv(s[i := r], begin)
  {
    hide RangeOk;
  }

  /** What is placed when nothing wraps. */
  lemma PlacedIs(s: seq<Range>, begin: nat, amount: nat, i: nat)
    requires i < |s| && (s[i].records == [] <==> i == 0) && Limit(s, begin, amount, i) < 0x1_0000_0000
    ensures Placed(s, begin, amount, i) ==
            if i == 0 then
              [s[0].(end := begin), Range(begin, begin + amount * PGSIZE, [Record(begin, amount)])]
            else
              s[i := Range(s[i].begin, s[i].end + amount * PGSIZE, [Record(s[i].end, amount)] + s[i].records)]
  {
  }

  lemma LimitBelow(s: seq<Range>, begin: nat, amount: nat, i: nat)
    requires Inv(s, begin) && FirstFit(s, begin, amount, i) && !NoSpace(s, begin, amount, i)
    requires Limit(s, begin, amount, i) < 0x1_0000_0000
    ensures Limit(s, begin, amount, i) < MaxEnd(begin)
    ensures i + 1 < |s| ==> Limit(s, begin, amount, i) <= s[i + 1].begin
  {
    hide RangeOk;
  }

  lemma {:induction false} PlacedOk(s: seq<Range>, begin: nat, amount: nat, i: nat)
    requires Inv(s, begin) && 0 < amount && FirstFit(s, begin, amount, i) && !NoSpace(s, begin, amount, i)
    requires Limit(s, begin, amount, i) < 0x1_0000_0000
    ensures Inv(Placed(s, begin, amount, i), begin)
  {
    hide RangeOk, Placed, NoSpace;
    LimitBelow(s, begin, amount, i);
    PlacedIs(s, begin, amount, i);
    hide FirstFit;
    if i == 0 {
      FirstPlaced(s, begin, amount);
    } else {
      GrownOk(s[i], amount);
      var r := Range(s[i].begin, s[i].end + amount * PGSIZE, [Record(s[i].end, amount)] + s[i].records);
      assert s[i].begin <= s[i].end;
      hide Inv;
      ReplaceOk(s, begin, i, r);
    }
  }

  lemma FirstPlaced(s: seq<Range>, begin: nat, amount: nat)
    requires Inv(s, begin) && 0 < amount && begin + amount * PGSIZE < MaxEnd(begin)
    ensures Inv([s[0].(end := begin), Range(begin, begin + amount * PGSIZE, [Record(begin, amount)])], begin)
  {
  }

  lemma {:induction false} AllConcat(a: seq<Range>, b: seq<Range>)
    ensures All(a + b) == All(a) + All(b)
  {
    if a == [] {
      assert a + b == b;
    } else {
      assert (a + b)[1..] == a[1..] + b;
      AllConcat(a[1..], b);
    }
  }

  lemma AllParts(a: seq<Range>, r: Range, b: seq<Range>)
    ensures All(a + [r] + b) == All(a) + r.records + All(b)
  {
    AllConcat(a + [r], b);
    AllConcat(a, [r]);
    assert All([r]) == r.records + All([]);
  }

  lemma AllReplaced(s: seq<Range>, k: nat, r: Range)
    requires k < |s|
    ensures All(s) == All(s[..k]) + s[k].records + All(s[k + 1..])
    ensures All(s[k := r]) == All(s[..k]) + r.records + All(s[k + 1..])
  {
    assert s == s[..k] + [s[k]] + s[k + 1..] && s[k := r] == s[..k] + [r] + s[k + 1..];
    AllParts(s[..k], s[k], s[k + 1..]);
    AllParts(s[..k], r, s[k + 1..]);
  }

  /**
    A successful request adds its record and loses none, exactly when it does not find room
    before the first range: there the new range takes the place of the whole list.
   */
  lemma {:induction false} AllocConservesIff(s: seq<Range>, begin: nat, amount: nat, i: nat)
    requires Inv(s, begin) && FirstFit(s, begin, amount, i)
    ensures multiset(All(Placed(s, begin, amount, i)))
            == multiset(All(s)) + multiset{Record(LastEnd(s, begin, i), amount)}
            <==> !(i == 0 && 1 < |s|)
  {
    hide RangeOk, All;
    if i == 0 {
      ReplacedAll(s, begin, amount);
    } else {
      var n := Placed(s, begin, amount, i);
      AllReplaced(s, i, n[i]);
      assert n == s[i := n[i]];
    }
  }

  lemma {:induction false} ReplacedAll(s: seq<Range>, begin: nat, amount: nat)
    requires Inv(s, begin)
    ensures All(Placed(s, begin, amount, 0)) == [Record(begin, amount)]
    ensures |All(s)| == 0 <==> |s| == 1
  {
    hide RangeOk, All;
    var n := Placed(s, begin, amount, 0);
    HeadAll(s);
    HeadAll(n);
    HeadAll(n[1..]);
    assert n[1..][1..] == [];
    NoneAll();
    if 1 < |s| {
      HeadAll(s[1..]);
    } else {
      assert s[1..] == [];
    }
  }

  lemma NoneAll()
    ensures All([]) == []
  {
  }

  /**
    A run in which every live record but the new one is lost: two requests, the release of the
    record at the start address, and a request of one page.
   */
  lemma LossExample(begin: nat)
    requires begin + 2 * PGSIZE < MaxEnd(begin)
    ensures var a, b := Record(begin, 1), Record(begin + PGSIZE, 1);
            var s1 := Placed([Range(0, 0, [])], begin, 1, 0);
            var s2 := Placed(s1, begin, 1, 1);
            && FirstFit([Range(0, 0, [])], begin, 1, 0) && FirstFit(s1, begin, 1, 1)
            && !NoSpace([Range(0, 0, [])], begin, 1, 0) && !NoSpace(s1, begin, 1, 1)
            && Held(s2, begin, 1, 1) && s2[1].records == [b, a]
            && All(Dropped(s2, 1, 1)) == [b] && FirstFit(Dropped(s2, 1, 1), begin, 1, 0)
            && All(Placed(Dropped(s2, 1, 1), begin, 1, 0)) == [a]
  {
    var a, b := Record(begin, 1), Record(begin + PGSIZE, 1);
    var s0 := [Range(0, 0, [])];
    var s1 := Placed(s0, begin, 1, 0);
    assert s1 == [Range(0, begin, []), Range(begin, begin + PGSIZE, [a])];
    var s2 := Placed(s1, begin, 1, 1);
    assert [b] + [a] == [b, a];
    PlacedIs(s1, begin, 1, 1);
    assert s2 == [s1[0], Range(begin, begin + 2 * PGSIZE, [b, a])];
    var s3 := Dropped(s2, 1, 1);
    assert s3 == [s1[0], Range(begin + PGSIZE, begin + 2 * PGSIZE, [b])] by {
      assert [b, a][..1] == [b];
    }
    var s4 := Placed(s3, begin, 1, 0);
    assert s4 == [s1[0], Range(begin, begin + PGSIZE, [a])];
    TwoRanges(s1[0], s3[1]);
    TwoRanges(s1[0], s4[1]);
  }

  lemma TwoRanges(p: Range, q: Range)
    ensures All([p, q]) == p.records + q.records
  {
    assert [p, q][1..] == [q] && [q][1..] == [];
    HeadAll([p, q]);
    HeadAll([q]);
    NoneAll();
  }

  lemma HeadAll(s: seq<Range>)
    requires s != []
    ensures All(s) == s[0].records + All(s[1..])
  {
  }

  lemma TwoParts(s: seq<Range>, k: nat, a: Range, b: Range)
    requires k < |s|
    ensures All(s[..k] + [a, b] + s[k + 1..]) == All(s[..k]) + a.records + b.records + All(s[k + 1..])
  {
    assert s[..k] + [a, b] + s[k + 1..] == (s[..k] + [a]) + [b] + s[k + 1..];
    AllParts(s[..k] + [a], b, s[k + 1..]);
    AllParts(s[..k], a, []);
    assert s[..k] + [a] + [] == s[..k] + [a];
  }

  lemma OneLess(s: seq<Range>, k: nat, prev: Range)
    requires 1 <= k < |s| && |s[k].records| == 1 && prev.records == s[k - 1].records
    ensures multiset(All((s[..k] + s[k + 1..])[k - 1 := prev])) + multiset{s[k].records[0]} == multiset(All(s))
  {
    hide All;
    AllReplaced(s, k, s[k]);
    var t := s[..k] + s[k + 1..];
    AllConcat(s[..k], s[k + 1..]);
    AllReplaced(t, k - 1, prev);
    assert s[k].records == [s[k].records[0]];
  }

  lemma MultisetParts<T>(a: seq<T>, q: seq<T>, b: seq<T>, j: nat)
    requires j < |q|
    ensures multiset(a + q + b) == multiset(a + (q[..j] + q[j + 1..]) + b) + multiset{q[j]}
    ensures multiset(a + q[j + 1..] + q[..j] + b) + multiset{q[j]} == multiset(a + q + b)
  {
    assert q == q[..j] + [q[j]] + q[j + 1..];
  }

  /** A release takes out its own record and no other. */
  lemma {:induction false} ReleaseConserves(s: seq<Range>, begin: nat, va: nat, k: nat, j: nat)
    requires Inv(s, begin) && Held(s, va, k, j)
    ensures s[k].records[j].pages * PGSIZE <= s[k].end
    ensures multiset(All(Dropped(s, k, j))) + multiset{s[k].records[j]} == multiset(All(s))
  {
    OneHolder(s, begin, va, k, j);
    if |s[k].records| == 1 {
      OneLess(s, k, s[k - 1].(end := s[k + 1].begin));
    } else {
      SplitConserves(s, k, j);
    }
    hide RangeOk, All, Inv;
  }

  lemma SplitConserves(s: seq<Range>, k: nat, j: nat)
    requires 1 <= k < |s| && 1 < |s[k].records| && j < |s[k].records| && s[k].records[j].pages * PGSIZE <= s[k].end
    ensures multiset(All(Dropped(s, k, j))) + multiset{s[k].records[j]} == multiset(All(s))
  {
    hide RangeOk, All, Inv;
    var w := s[k];
    var q := w.records;
    if j == 0 {
      SideRecord(s, k, j, Range(w.begin, w.end - q[j].pages * PGSIZE, q[1..]));
    } else if j == |q| - 1 {
      SideRecord(s, k, j, Range(w.begin + q[j].pages * PGSIZE, w.end, q[..j]));
    } else {
      MiddleRecord(s, k, j, Lower(w, j), Upper(w, j));
    }
  }

  lemma SideRecord(s: seq<Range>, k: nat, j: nat, r: Range)
    requires k < |s| && j < |s[k].records| && (j == 0 || j == |s[k].records| - 1)
    requires r.records == if j == 0 then s[k].records[1..] else s[k].records[..j]
    ensures multiset(All(s[k := r])) + multiset{s[k].records[j]} == multiset(All(s))
  {
    hide All;
    AllReplaced(s, k, r);
    MultisetParts(All(s[..k]), s[k].records, All(s[k + 1..]), j);
    assert r.records == s[k].records[..j] + s[k].records[j + 1..];
  }

  lemma MiddleRecord(s: seq<Range>, k: nat, j: nat, a: Range, b: Range)
    requires k < |s| && j < |s[k].records| && a.records == s[k].records[j + 1..] && b.records == s[k].records[..j]
    ensures multiset(All(s[..k] + [a, b] + s[k + 1..])) + multiset{s[k].records[j]} == multiset(All(s))
  {
    hide All;
    AllReplaced(s, k, s[k]);
    MultisetParts(All(s[..k]), s[k].records, All(s[k + 1..]), j);
    TwoParts(s, k, a, b);
  }

  /** What is left of a range when its highest or its lowest record goes. */
  lemma PartsOk(w: Range, j: nat)
    requires RangeOk(w) && j < |w.records| && 1 < |w.records|
    ensures w.records[j].pages * PGSIZE <= w.end
    ensures var r, q := w.records[j], w.records;
            && (j == 0 ==> RangeOk(Range(w.begin, w.end - r.pages * PGSIZE, q[1..])))
            && (j == |q| - 1 ==> RangeOk(Range(w.begin + r.pages * PGSIZE, w.end, q[..j])))
  {
    assert w.records[j].Top() <= w.end;
  }

  lemma {:induction false} InsertRangeOk(s: seq<Range>, begin: nat, k: nat, r: Range)
    requires Inv(s, begin) && 1 <= k < |s|
    requires RangeOk(r) && r.records != [] && begin <= r.begin <= r.end <= s[k].begin && s[k - 1].end <= r.begin
    ensures Inv(s[..k] + [r] + s[k..], begin)
  {
    var n := s[..k] + [r] + s[k..];
    hide RangeOk;
    forall i | 1 <= i < |n|
      ensures RangeOk(n[i]) && n[i].records != [] && begin <= n[i].begin <= n[i].end < MaxEnd(begin)
    {
      assert n[i] == if i < k then s[i] else if i == k then r else s[i - 1];
    }
    forall i, j | 1 <= i < j < |n|
      ensures n[i].end <= n[j].begin
    {
      Between(s, begin, k, r, i, j);
    }
    assert n[0] == s[0] && n[1] == if k == 1 then r else s[1];
  }

  lemma Between(s: seq<Range>, begin: nat, k: nat, r: Range, i: nat, j: nat)
    requires Inv(s, begin) && 1 <= k < |s| && r.begin <= r.end <= s[k].begin && s[k - 1].end <= r.begin
    requires 1 <= i < j < |s| + 1
    ensures (s[..k] + [r] + s[k..])[i].end <= (s[..k] + [r] + s[k..])[j].begin
  {
    hide RangeOk;
    var n := s[..k] + [r] + s[k..];
    assert n[i] == if i < k then s[i] else if i == k then r else s[i - 1];
    assert n[j] == if j < k then s[j] else if j == k then r else s[j - 1];
    assert i < k - 1 ==> s[i].end <= s[k - 1].begin <= s[k - 1].end;
    assert k < j - 1 ==> s[k].begin <= s[k].end <= s[j - 1].begin;
  }

  lemma WiderOk(r: Range, end: nat)
    requires RangeOk(r) && r.end <= end
    ensures RangeOk(r.(end := end))
  {
  }

  lemma UnlinkOk(s: seq<Range>, begin: nat, k: nat)
    requires Inv(s, begin) && 1 <= k < |s|
    ensures Inv(s[..k] + s[k + 1..], begin)
  {
    hide RangeOk;
    var n := s[..k] + s[k + 1..];
    assert forall i | 0 <= i < k :: n[i] == s[i];
    assert forall i | k <= i < |n| :: n[i] == s[i + 1];
  }

  /** Taking a range out and stretching the one before it up to the next. */
  lemma {:induction false} RemoveRangeOk(s: seq<Range>, begin: nat, k: nat)
    requires Inv(s, begin) && 1 <= k && k + 1 < |s|
    ensures Inv((s[..k] + s[k + 1..])[k - 1 := s[k - 1].(end := s[k + 1].begin)], begin)
  {
    UnlinkOk(s, begin, k);
    var t, prev := s[..k] + s[k + 1..], s[k - 1].(end := s[k + 1].begin);
    assert t[k - 1] == s[k - 1] && t[k] == s[k + 1];
    if 1 < k {
      assert s[k - 1].end <= s[k + 1].begin;
      WiderOk(s[k - 1], s[k + 1].begin);
      hide RangeOk;
      ReplaceOk(t, begin, k - 1, prev);
    }
  }

  /** One range may be replaced by two inside it. */
  lemma {:induction false} SplitOk(s: seq<Range>, begin: nat, k: nat, lower: Range, upper: Range)
    requires Inv(s, begin) && 1 <= k < |s|
    requires RangeOk(lower) && RangeOk(upper) && lower.records != [] && upper.records != []
    requires s[k].begin <= lower.begin <= lower.end <= upper.begin <= upper.end <= s[k].end
    ensures Inv(s[..k] + [lower, upper] + s[k + 1..], begin)
  {
    hide RangeOk;
    ReplaceOk(s, begin, k, upper);
    var t := s[k := upper];
    InsertRangeOk(t, begin, k, lower);
    assert t[..k] + [lower] + t[k..] == s[..k] + [lower, upper] + s[k + 1..];
  }

  lemma HalvesOk(w: Range, j: nat)
    requires RangeOk(w) && 0 < j < |w.records| - 1
    ensures RangeOk(Lower(w, j)) && RangeOk(Upper(w, j)) && Lower(w, j).records != [] && Upper(w, j).records != []
    ensures w.begin <= Lower(w, j).begin <= Lower(w, j).end <= Upper(w, j).begin <= Upper(w, j).end <= w.end
  {
    assert w.records[|w.records| - 1].Top() <= w.records[j].va;
  }

  /** Every release keeps ranges sorted and disjoint with each record inside its range. */
  lemma {:induction false} ReleaseKeepsInv(s: seq<Range>, begin: nat, va: nat, k: nat, j: nat)
    requires Inv(s, begin) && Held(s, va, k, j)
    ensures s[k].records[j].pages * PGSIZE <= s[k].end
    ensures Inv(Dropped(s, k, j), begin)
  {
    OneHolder(s, begin, va, k, j);
    hide RangeOk;
    if |s[k].records| == 1 {
      RemoveRangeOk(s, begin, k);
    } else {
      if 0 < j < |s[k].records| - 1 {
        MiddleOk(s, begin, k, j);
      } else {
        ShrinkOk(s, begin, k, j);
      }
    }
  }

  lemma {:induction false} MiddleOk(s: seq<Range>, begin: nat, k: nat, j: nat)
    requires Inv(s, begin) && 1 <= k < |s| && 0 < j < |s[k].records| - 1
    requires s[k].records[j].pages * PGSIZE <= s[k].end
    ensures Inv(Dropped(s, k, j), begin)
  {
    HalvesOk(s[k], j);
    hide RangeOk, Inv, Lower, Upper;
    SplitOk(s, begin, k, Lower(s[k], j), Upper(s[k], j));
  }

  lemma {:induction false} ShrinkOk(s: seq<Range>, begin: nat, k: nat, j: nat)
    requires Inv(s, begin) && 1 <= k < |s| && 1 < |s[k].records|
    requires j == 0 || j == |s[k].records| - 1
    requires s[k].records[j].pages * PGSIZE <= s[k].end
    ensures Inv(Dropped(s, k, j), begin)
  {
    PartsOk(s[k], j);
    var n := Dropped(s, k, j);
    assert s[k].begin <= n[k].begin <= n[k].end <= s[k].end by {
      assert RangeOk(s[k]);
    }
    hide RangeOk;
    ReplaceOk(s, begin, k, n[k]);
    hide Inv;
    assert n == s[k := n[k]];
  }

  /** While the anchor holds, a request never finds room before the first range, and keeps the anchor. */
  lemma {:induction false} AllocKeepsAnchor(s: seq<Range>, begin: nat, amount: nat, i: nat)
    requires Inv(s, begin) && Anchored(s, begin) && 0 < amount && FirstFit(s, begin, amount, i)
    ensures i == 0 ==> |s| == 1
    ensures Anchored(Placed(s, begin, amount, i), begin)
  {
    hide RangeOk;
    assert 1 < |s| ==> Gap(s, begin, 0) == 0;
    var n := Placed(s, begin, amount, i);
    if i == 1 {
      assert n[1].records == [n[1].records[0]] + s[1].records;
    }
  }

  lemma FirstNotEmpty(s: seq<Range>, begin: nat)
    requires Inv(s, begin) && 1 < |s|
    ensures begin <= s[1].begin < s[1].end && s[1].records != []
  {
    assert RangeOk(s[1]) && s[1].records[0].Top() <= s[1].end;
  }

  /** A release keeps the anchor exactly when it is not the record at `begin` that goes. */
  lemma {:induction false} ReleaseKeepsAnchorIff(s: seq<Range>, begin: nat, va: nat, k: nat, j: nat)
    requires Inv(s, begin) && Anchored(s, begin) && Held(s, va, k, j)
    ensures s[k].records[j].pages * PGSIZE <= s[k].end
    ensures Anchored(Dropped(s, k, j), begin) <==> va != begin
  {
    OneHolder(s, begin, va, k, j);
    hide RangeOk;
    FirstNotEmpty(s, begin);
    if 1 < k {
      assert s[1].end <= s[k].begin;
      assert Dropped(s, k, j)[1].records == s[1].records;
    } else {
      FirstAnchor(s, begin, j);
    }
  }

  lemma {:induction false} FirstAnchor(s: seq<Range>, begin: nat, j: nat)
    requires Inv(s, begin) && Anchored(s, begin) && 1 < |s| && j < |s[1].records| && (|s[1].records| == 1 ==> 2 < |s|)
    requires s[1].records[j].pages * PGSIZE <= s[1].end
    ensures s[1].records[j].va == begin <==> j == |s[1].records| - 1
    ensures Anchored(Dropped(s, 1, j), begin) <==> j != |s[1].records| - 1
  {
    var q, n := s[1].records, Dropped(s, 1, j);
    var last := |q| - 1;
    assert j < last ==> q[last].Top() <= q[j].va;
    assert q[last].Top() <= s[1].end && 0 < q[last].pages;
    assert 2 < |s| ==> s[1].end <= s[2].begin;
    assert 2 < |s| ==> s[2].records != [];
    hide RangeOk, Inv;
    if |q| == 1 {
      assert n[1] == s[2];
    } else if j == 0 {
      assert n[1].records == q[1..] && q[1..][|q| - 2] == q[last];
    } else if j == last {
      assert n[1].begin == begin + q[j].pages * PGSIZE && n[1].records != [];
    } else {
      assert n[1].begin == q[last].va && q[j + 1..][last - j - 1] == q[last];
    }
  }

  /** A request that was granted, or a release, with the record it was about. */
  datatype Event = Alloc(r: Record) | Release(r: Record)

  ghost predicate Grants(s: seq<Range>, begin: nat, r: Record, i: nat, n: seq<Range>) {
    && FirstFit(s, begin, r.pages, i) && 0 < r.pages && !NoSpace(s, begin, r.pages, i)
    && Limit(s, begin, r.pages, i) < 0x1_0000_0000
    && r.va == LastEnd(s, begin, i) && n == Placed(s, begin, r.pages, i)
  }

  ghost predicate Releases(s: seq<Range>, begin: nat, r: Record, k: nat, j: nat, n: seq<Range>) {
    && Held(s, r.va, k, j) && r == s[k].records[j] && r.va != begin
    && r.pages * PGSIZE <= s[k].end && n == Dropped(s, k, j)
  }

  /** One call; the record at `begin` stays. */
  ghost predicate Moves(s: seq<Range>, begin: nat, e: Event, n: seq<Range>) {
    match e
    case Alloc(r) => exists i: nat :: Grants(s, begin, r, i, n)
    case Release(r) => exists k: nat, j: nat :: Releases(s, begin, r, k, j, n)
  }

  /** The calls made so far, the last one outermost. */
  datatype Calls = Start | Then(before: Calls, last: Event)

  ghost function Granted(cs: Calls): multiset<Record> {
    match cs
    case Start => multiset{}
    case Then(b, e) => if e.Alloc? then Granted(b) + multiset{e.r} else Granted(b)
  }

  ghost function Released(cs: Calls): multiset<Record> {
    match cs
    case Start => multiset{}
    case Then(b, e) => if e.Release? then Released(b) + multiset{e.r} else Released(b)
  }

  lemma {:induction false} MoveKeeps(s: seq<Range>, begin: nat, e: Event, n: seq<Range>)
    requires Inv(s, begin) && Anchored(s, begin) && Moves(s, begin, e, n)
    ensures Inv(n, begin) && Anchored(n, begin)
    ensures e.Alloc? ==> multiset(All(n)) == multiset(All(s)) + multiset{e.r}
    ensures e.Release? ==> multiset(All(n)) + multiset{e.r} == multiset(All(s))
  {
    hide Inv, Anchored, Placed, Dropped, All, FirstFit;
    match e
    case Alloc(r) =>
      var i: nat :| Grants(s, begin, r, i, n);
      AllocKeepsAnchor(s, begin, r.pages, i);
      AllocKeepsInvIff(s, begin, r.pages, i);
      AllocConservesIff(s, begin, r.pages, i);
    case Release(r) =>
      var k: nat, j: nat :| Releases(s, begin, r, k, j, n);
      ReleaseKeepsAnchorIff(s, begin, r.va, k, j);
      ReleaseKeepsInv(s, begin, r.va, k, j);
      ReleaseConserves(s, begin, r.va, k, j);
  }

  /** The calls lead from the empty list to s. */
  ghost predicate Reaches(begin: nat, cs: Calls, s: seq<Range>) {
    match cs
    case Start => s == [Range(0, 0, [])]
    case Then(b, e) => exists p :: Reaches(begin, b, p) && Moves(p, begin, e, s)
  }

  /**
    Over every run from the empty list: ranges stay sorted and disjoint, records inside them, and
    the live records are exactly those granted and not yet released.
   */
  lemma {:induction false} RunSafe(begin: nat, cs: Calls, s: seq<Range>)
    requires begin < MaxEnd(begin) && Reaches(begin, cs, s)
    ensures Inv(s, begin) && Anchored(s, begin)
    ensures multiset(All(s)) + Released(cs) == Granted(cs)
  {
    hide Moves;
    match cs
    case Start => assert All(s) == [] + All([]);
    case Then(b, e) =>
      var p :| Reaches(begin, b, p) && Moves(p, begin, e, s);
      hide Inv, Anchored, All;
      RunSafe(begin, b, p);
      MoveKeeps(p, begin, e, s);
      Balance(multiset(All(p)), multiset(All(s)), Granted(b), Released(b), e);
  }

  lemma Balance(before: multiset<Record>, after: multiset<Record>, granted: multiset<Record>,
                released: multiset<Record>, e: Event)
    requires before + released == granted
    requires e.Alloc? ==> after == before + multiset{e.r}
    requires e.Release? ==> after + multiset{e.r} == before
    ensures e.Alloc? ==> after + released == granted + multiset{e.r}
    ensures e.Release? ==> after + (released + multiset{e.r}) == granted
  {
  }
}
