/**
  kern/mem/format_list.c: pages carved into slots of one size, with a free list inside each page
  and a chain of pages. The free list is kept as the sequence of element addresses it links.
 */
module Slab {
  import opened Containers
  import opened MemoryLayout

  /** sizeof(fmtlist_t) and sizeof(node_t) on the 32-bit target */
  const HEADER: nat := 28
  const NODE: nat := 8

  /** fmtlist_t, without its link; a page that was never carved has capacity 0. */
  datatype Page = Page(at: nat, capacity: nat, free: seq<nat>)

  /** PGDOWN(va, PGSIZE) */
  function PageOf(va: nat): nat {
    va - va % PGSIZE
  }

  function Capacity(size: nat): nat {
    (PGSIZE - HEADER) / (NODE + size)
  }

  /** A page holds as many elements as fit behind its header. */
  lemma CapacityIsMost(size: nat)
    ensures HEADER + Capacity(size) * (NODE + size) <= PGSIZE < HEADER + (Capacity(size) + 1) * (NODE + size)
    ensures 0 < Capacity(size) <==> HEADER + NODE + size <= PGSIZE
  {
    var c, w := Capacity(size), NODE + size;
    assert c * w <= PGSIZE - HEADER < (c + 1) * w;
    if 0 < c {
      MulMonotone(1, c, w);
    }
  }

  /** Where element k of a page starts, behind its own list node. */
  function SlotAt(at: nat, size: nat, k: nat): nat {
    at + HEADER + k * (NODE + size) + NODE
  }

  /** The first n slots of a page. */
  function Slots(at: nat, size: nat, n: nat): seq<nat> {
    if n == 0 then [] else Slots(at, size, n - 1) + [SlotAt(at, size, n - 1)]
  }

  lemma {:induction false} SlotsAre(at: nat, size: nat, n: nat)
    ensures |Slots(at, size, n)| == n
    ensures forall k | 0 <= k < n :: Slots(at, size, n)[k] == SlotAt(at, size, k)
  {
    if n != 0 {
      SlotsAre(at, size, n - 1);
    }
  }

  /** A slot lies in its page, past the header and past its node. */
  lemma SlotInside(at: nat, size: nat, k: nat)
    requires at % PGSIZE == 0 && k < Capacity(size)
    ensures at + HEADER + NODE <= SlotAt(at, size, k) && SlotAt(at, size, k) + size <= at + PGSIZE
    ensures PageOf(SlotAt(at, size, k)) == at || size == 0
  {
    var w, c := NODE + size, Capacity(size);
    assert (k + 1) * w <= c * w <= PGSIZE - HEADER by {
      MulMonotone(k + 1, c, w);
    }
    assert (k + 1) * w == k * w + w;
    var off := HEADER + k * w + NODE;
    hide Capacity, PageOf;
    if size != 0 {
      InPage(at, off);
    }
  }

  lemma InPage(at: nat, off: nat)
    requires at % PGSIZE == 0 && off < PGSIZE
    ensures PageOf(at + off) == at
  {
  }

  lemma MulMonotone(a: nat, b: nat, w: nat)
    requires a <= b
    ensures a * w <= b * w
  {
  }

  /** Two slots of a page, with their nodes, do not overlap. */
  lemma SlotsApart(at: nat, size: nat, j: nat, k: nat)
    requires j < k
    ensures SlotAt(at, size, j) + size <= SlotAt(at, size, k) - NODE
  {
    MulMonotone(j + 1, k, NODE + size);
    assert (j + 1) * (NODE + size) == j * (NODE + size) + (NODE + size);
  }

  /** A carved page: its free list holds slots of its own, none twice. */
  ghost predicate Carved(p: Page, size: nat) {
    && p.at % PGSIZE == 0 && 0 < p.capacity == Capacity(size)
    && (forall e | e in p.free :: e in Slots(p.at, size, p.capacity))
    && (forall i, j | 0 <= i < j < |p.free| :: p.free[i] != p.free[j])
  }

  /** An element handed out and not given back. */
  ghost predicate InUse(p: Page, size: nat, e: nat) {
    e in Slots(p.at, size, p.capacity) && e !in p.free
  }

  /** All carved pages, by address, whether or not the chain still reaches them. */
  ghost predicate Inv(pages: map<nat, Page>, size: nat) {
    0 < size && forall a | a in pages :: pages[a].at == a && Carved(pages[a], size)
  }

  ghost predicate Live(pages: map<nat, Page>, size: nat, e: nat) {
    PageOf(e) in pages && InUse(pages[PageOf(e)], size, e)
  }

  /** Live elements never overlap, and lie in their page past the header. */
  lemma LiveApart(pages: map<nat, Page>, size: nat, e: nat, f: nat)
    requires Inv(pages, size) && Live(pages, size, e) && Live(pages, size, f) && e != f
    ensures e + size <= f || f + size <= e
    ensures PageOf(e) + HEADER + NODE <= e && e + size <= PageOf(e) + PGSIZE
  {
    var p := pages[PageOf(e)];
    var a := SlotIndex(p, size, e);
    var b := SlotIndex(pages[PageOf(f)], size, f);
    if PageOf(e) == PageOf(f) {
      if a < b {
        SlotsApart(p.at, size, a, b);
      } else if b < a {
        SlotsApart(p.at, size, b, a);
      }
    } else {
      PagesApart(PageOf(e), PageOf(f));
    }
  }

  lemma SlotIndex(p: Page, size: nat, e: nat) returns (k: nat)
    requires Carved(p, size) && 0 < size && e in Slots(p.at, size, p.capacity)
    ensures k < p.capacity && e == SlotAt(p.at, size, k)
    ensures p.at + HEADER + NODE <= e && e + size <= p.at + PGSIZE && PageOf(e) == p.at
  {
    SlotsAre(p.at, size, p.capacity);
    k :| 0 <= k < p.capacity && Slots(p.at, size, p.capacity)[k] == e;
    SlotInside(p.at, size, k);
  }

  lemma PagesApart(a: nat, b: nat)
    requires a % PGSIZE == 0 && b % PGSIZE == 0 && a != b
    ensures a + PGSIZE <= b || b + PGSIZE <= a
  {
  }

  /** For each page, free elements and elements in use are together its capacity. */
  lemma FreeAndUsed(p: Page, size: nat)
    requires Carved(p, size) && 0 < size
    ensures |p.free| + |set e | e in Slots(p.at, size, p.capacity) && InUse(p, size, e)| == p.capacity
  {
    var slots := Slots(p.at, size, p.capacity);
    SlotsAre(p.at, size, p.capacity);
    forall i, j | 0 <= i < j < |slots|
      ensures slots[i] != slots[j]
    {
      SlotsApart(p.at, size, i, j);
    }
    SetOfDistinct(slots);
    SetOfDistinct(p.free);
    assert Elements(p.free) <= Elements(slots);
    assert (set e | e in slots && InUse(p, size, e)) == Elements(slots) - Elements(p.free);
  }

  function Elements(q: seq<nat>): set<nat> {
    set e | e in q
  }

  lemma {:induction false} SetOfDistinct(q: seq<nat>)
    requires forall i, j | 0 <= i < j < |q| :: q[i] != q[j]
    ensures |Elements(q)| == |q|
  {
    if q != [] {
      var m := |q| - 1;
      SetOfDistinct(q[..m]);
      assert q == q[..m] + [q[m]];
      assert q[m] !in Elements(q[..m]);
      assert Elements(q) == Elements(q[..m]) + {q[m]};
    }
  }

  /** A page whose free list is as long as its capacity has no element in use. */
  lemma FullPage(p: Page, size: nat)
    requires Carved(p, size) && 0 < size && |p.free| == p.capacity
    ensures forall e :: !InUse(p, size, e)
  {
    FreeAndUsed(p, size);
    var used := set e | e in Slots(p.at, size, p.capacity) && InUse(p, size, e);
    assert used == {};
    forall e
      ensures !InUse(p, size, e)
    {
      assert e !in used;
    }
  }

  /** fmtlist_init: elements are linked in the order of their addresses. */
  method Carve(at: nat, size: nat) returns (p: Page)
    requires at % PGSIZE == 0
    ensures p == Page(at, Capacity(size), Slots(at, size, Capacity(size)))
    ensures HEADER + |p.free| * (NODE + size) <= PGSIZE < HEADER + (|p.free| + 1) * (NODE + size)
  {
    CapacityIsMost(size);
    SlotsAre(at, size, Capacity(size));
    var elem, capacity, free := at + HEADER, (PGSIZE - HEADER) / (NODE + size), [];
    for i := 0 to capacity
      invariant elem == at + HEADER + i * (NODE + size)
      invariant free == Slots(at, size, i)
    {
      SlotsAre(at, size, i);
      free := Inserted(free, |free|, elem + NODE);
      elem := elem + (NODE + size);
      assert (i + 1) * (NODE + size) == i * (NODE + size) + (NODE + size);
    }
    p := Page(at, capacity, free);
  }

  /** A freshly carved page has nothing in use; after its first element is taken, only that one. */
  lemma FreshPage(at: nat, size: nat)
    requires at % PGSIZE == 0 && 0 < Capacity(size)
    ensures var s := Slots(at, size, Capacity(size));
            s != [] && Carved(Page(at, Capacity(size), s[1..]), size)
            && forall e :: InUse(Page(at, Capacity(size), s[1..]), size, e) <==> e == s[0]
  {
    var s := Slots(at, size, Capacity(size));
    SlotsAre(at, size, Capacity(size));
    forall i, j | 0 <= i < j < |s|
      ensures s[i] != s[j]
    {
      SlotsApart(at, size, i, j);
    }
    assert s == [s[0]] + s[1..];
  }

  /** Taking the first free element makes that one live, and changes nothing else. */
  lemma TakeOne(pages: map<nat, Page>, size: nat, p: Page)
    requires Inv(pages, size) && p.at in pages && pages[p.at] == p && p.free != []
    ensures var n := pages[p.at := p.(free := p.free[1..])];
            && Inv(n, size) && !Live(pages, size, p.free[0])
            && forall e :: Live(n, size, e) <==> Live(pages, size, e) || e == p.free[0]
  {
    hide Carved, InUse, PageOf, Slots;
    FirstTaken(p, size);
    OnePage(pages, size, p.(free := p.free[1..]));
  }

  lemma FirstTaken(p: Page, size: nat)
    requires Carved(p, size) && 0 < size && p.free != []
    ensures Carved(p.(free := p.free[1..]), size) && !InUse(p, size, p.free[0]) && PageOf(p.free[0]) == p.at
    ensures forall e :: InUse(p.(free := p.free[1..]), size, e) <==> InUse(p, size, e) || e == p.free[0]
  {
    hide Slots, PageOf, Capacity;
    assert p.free == [p.free[0]] + p.free[1..];
    var k := SlotIndex(p, size, p.free[0]);
  }

  /** One page is replaced: only its elements can become live or stop being live. */
  lemma OnePage(pages: map<nat, Page>, size: nat, q: Page)
    requires Inv(pages, size) && q.at in pages && Carved(q, size)
    ensures Inv(pages[q.at := q], size)
    ensures forall e :: Live(pages[q.at := q], size, e) <==>
                        if PageOf(e) == q.at then InUse(q, size, e) else Live(pages, size, e)
  {
    hide Carved, InUse, PageOf;
  }

  /** Giving an element back makes that one free, and changes nothing else. */
  lemma PutBack(pages: map<nat, Page>, size: nat, p: Page, e: nat)
    requires Inv(pages, size) && p.at in pages && pages[p.at] == p && InUse(p, size, e)
    ensures var q := p.(free := [e] + p.free);
            && Carved(q, size) && Inv(pages[p.at := q], size)
            && forall f :: Live(pages[p.at := q], size, f) <==> Live(pages, size, f) && f != e
  {
    hide Carved, InUse, PageOf, Slots;
    FirstPut(p, size, e);
    OnePage(pages, size, p.(free := [e] + p.free));
  }

  lemma FirstPut(p: Page, size: nat, e: nat)
    requires Carved(p, size) && 0 < size && InUse(p, size, e)
    ensures Carved(p.(free := [e] + p.free), size) && PageOf(e) == p.at
    ensures forall f :: InUse(p.(free := [e] + p.free), size, f) <==> InUse(p, size, f) && f != e
  {
    hide Slots, PageOf, Capacity;
    var k := SlotIndex(p, size, e);
  }

  /** One more page, of which only the first element is handed out. */
  lemma AddPage(pages: map<nat, Page>, size: nat, at: nat)
    requires Inv(pages, size) && at % PGSIZE == 0 && at !in pages && 0 < Capacity(size)
    ensures var s := Slots(at, size, Capacity(size));
            && s != [] && !Live(pages, size, s[0])
            && Inv(pages[at := Page(at, Capacity(size), s[1..])], size)
            && forall e :: Live(pages[at := Page(at, Capacity(size), s[1..])], size, e)
                           <==> Live(pages, size, e) || e == s[0]
  {
    FreshPage(at, size);
    var s := Slots(at, size, Capacity(size));
    var k := SlotIndex(Page(at, Capacity(size), s[1..]), size, s[0]);
    hide Slots, Capacity;
  }

  /** One page less, in which nothing is handed out. */
  lemma DropPage(pages: map<nat, Page>, size: nat, p: Page)
    requires Inv(pages, size) && p.at in pages && pages[p.at] == p && |p.free| == p.capacity
    ensures Inv(pages - {p.at}, size)
    ensures forall e :: Live(pages - {p.at}, size, e) <==> Live(pages, size, e)
  {
    FullPage(p, size);
  }

  /** What becomes of the chain when an element is handed out; `newPage` is the page a new mapping would use. */
  function AfterAlloc(chain: seq<Page>, size: nat, newPage: nat): seq<Page>
    requires 0 < Capacity(size)
  {
    if chain == [] then [First(newPage, size)]
    else if chain[0].free != [] then [chain[0].(free := chain[0].free[1..])] + chain[1..]
    else if chain[0].capacity == 0 then [First(chain[0].at, size)]
    else [chain[0]] + AfterAlloc(chain[1..], size, newPage)
  }

  /** The element handed out: from the first page with a free one, otherwise the first of a newly carved page. */
  function Granted(chain: seq<Page>, size: nat, newPage: nat): nat {
    if chain == [] then SlotAt(newPage, size, 0)
    else if chain[0].free != [] then chain[0].free[0]
    else if chain[0].capacity == 0 then SlotAt(chain[0].at, size, 0)
    else Granted(chain[1..], size, newPage)
  }

  /** A newly carved page without its first element. */
  function First(at: nat, size: nat): Page
    requires 0 < Capacity(size)
  {
    SlotsAre(at, size, Capacity(size));
    Page(at, Capacity(size), Slots(at, size, Capacity(size))[1..])
  }

  /** The chain after element e of page i is given back. */
  function AfterRelease(chain: seq<Page>, i: nat, e: nat): seq<Page>
    requires i < |chain|
  {
    var p := chain[i].(free := [e] + chain[i].free);
    if |p.free| != p.capacity then chain[i := p]
    else if KERN_METADATA <= p.at then []
    else if i == 0 then chain[i := p]
    else Removed(chain, i)
  }

  /**
    Giving an element back leaves every other page on the chain, unless it empties a page of
    the kernel's region while the chain has others: the source then clears the whole chain.
   */
  lemma OthersStayIff(chain: seq<Page>, i: nat, e: nat)
    requires i < |chain|
    ensures (forall k | 0 <= k < |chain| && k != i :: chain[k] in AfterRelease(chain, i, e))
            <==> !(KERN_METADATA <= chain[i].at && |chain[i].free| + 1 == chain[i].capacity && 1 < |chain|)
  {
    var n := AfterRelease(chain, i, e);
    var other := if i == 0 then 1 else 0;
    if n == [] {
      assert other < |chain| ==> chain[other] !in n;
    } else if |n| == |chain| {
      assert forall k | 0 <= k < |chain| && k != i :: chain[k] == n[k];
    } else {
      assert forall k | 0 <= k < |chain| && k != i :: chain[k] == n[if k < i then k else k - 1];
    }
  }

  class Chain {
    const size: nat
    var chain: seq<Page>
    ghost var pages: map<nat, Page>

    /** The chain reaches carved pages only, or is the one blank page a process starts with. */
    ghost predicate Valid()
      reads this
    {
      && Inv(pages, size)
      && (if Blank() then chain[0] == Page(chain[0].at, 0, []) && chain[0].at % PGSIZE == 0 && chain[0].at !in pages
          else Reaches(chain, pages))
    }

    predicate Blank()
      reads this
    {
      |chain| == 1 && chain[0].capacity == 0
    }

    ghost predicate IsLive(e: nat)
      reads this
    {
      Live(pages, size, e)
    }

    /** A kernel chain starts empty; a process's one with a page of zeroes at `blank`. */
    constructor (size: nat, blank: nat)
      requires 0 < size && blank % PGSIZE == 0
      ensures Valid() && this.size == size && pages == map[]
      ensures chain == if blank == 0 then [] else [Page(blank, 0, [])]
      ensures forall e :: !IsLive(e)
    {
      this.size := size;
      chain := if blank == 0 then [] else [Page(blank, 0, [])];
      pages := map[];
    }

    /** fmtlist_alloc; ok is false where the source panics because no element fits a page. */
    method Alloc(newPage: nat) returns (ok: bool, ret: nat)
      requires Valid() && newPage % PGSIZE == 0 && newPage !in pages && forall p | p in chain :: p.at != newPage
      modifies this
      ensures ok <==> 0 < Capacity(size)
      ensures ok <==> HEADER + NODE + size <= PGSIZE
      ensures ok ==> Valid() && !Blank() && ret == Granted(old(chain), size, newPage)
                     && chain == AfterAlloc(old(chain), size, newPage)
      ensures ok ==> !old(IsLive(ret)) && forall e :: IsLive(e) <==> old(IsLive(e)) || e == ret
    {
      hide Carved, InUse, Live, Inv, Granted, AfterAlloc, First, Slots, Capacity;
      CapacityIsMost(size);
      if !Blank() {
        NotBlank(chain, pages, size);
      }
      var i := 0;
      while i < |chain| && chain[i].free == [] && chain[i].capacity != 0
        invariant i <= |chain|
        invariant forall k | 0 <= k < i :: chain[k].free == [] && chain[k].capacity != 0
      {
        i := i + 1;
      }
      if 0 < Capacity(size) {
        WalkIs(chain, i, size, newPage);
      }
      if i < |chain| && chain[i].free != [] {
        ret := TakeFrom(i);
        return true, ret;
      }
      ok, ret := Extend(i, if i < |chain| then chain[i].at else newPage);
    }

    /** Handing out the first free element of page i. */
    method TakeFrom(i: nat) returns (ret: nat)
      requires Valid() && i < |chain| && chain[i].free != []
      modifies this
      ensures Valid() && !Blank() && ret == old(chain)[i].free[0]
      ensures chain == old(chain)[i := old(chain)[i].(free := old(chain)[i].free[1..])]
      ensures !old(IsLive(ret)) && forall e :: IsLive(e) <==> old(IsLive(e)) || e == ret
    {
      hide Carved, InUse, Live, Inv;
      var p := chain[i];
      TakeOne(pages, size, p);
      ret := p.free[0];
      var q := p.(free := Removed(p.free, 0));
      assert q.free == p.free[1..];
      chain, pages := chain[i := q], pages[p.at := q];
      NotBlank(chain, pages, size);
    }

    /** Carving page `at` behind the i pages walked, and handing out its first element. */
    method Extend(i: nat, at: nat) returns (ok: bool, ret: nat)
      requires Valid() && i <= |chain| && at % PGSIZE == 0 && at !in pages
      requires if Blank() then i == 0 && at == chain[0].at else i == |chain|
      modifies this
      ensures ok <==> 0 < Capacity(size)
      ensures ok ==> Valid() && !Blank() && ret == SlotAt(at, size, 0)
      ensures ok ==> chain == old(chain)[..i] + [First(at, size)]
      ensures ok ==> !old(IsLive(ret)) && forall e :: IsLive(e) <==> old(IsLive(e)) || e == ret
    {
      hide Carved, InUse, Live, Inv, Reaches, Slots;
      var p := Carve(at, size);
      SlotsAre(at, size, Capacity(size));
      if |p.free| == 0 {
        return false, 0;
      }
      AddPage(pages, size, at);
      ret := p.free[0];
      p := p.(free := Removed(p.free, 0));
      assert p == First(at, size);
      LongerReaches(chain, pages, i, p);
      chain := chain[..i] + [p];
      pages := pages[at := p];
      NotBlank(chain, pages, size);
      return true, ret;
    }

    /** fmtlist_release; i says which page of the chain the element is in. */
    method Release(elem: nat) returns (done: bool, ghost i: nat)
      requires Valid() && !Blank()
      requires forall k | 0 <= k < |chain| && chain[k].at == PageOf(elem) :: InUse(chain[k], size, elem)
      modifies this
      ensures Valid() && !Blank()
      ensures done <==> elem != 0 && exists k :: 0 <= k < |old(chain)| && old(chain)[k].at == PageOf(elem)
      ensures done ==> i < |old(chain)| && old(chain)[i].at == PageOf(elem)
                       && chain == AfterRelease(old(chain), i, elem)
                       && forall e :: IsLive(e) <==> old(IsLive(e)) && e != elem
      ensures !done ==> chain == old(chain) && pages == old(pages)
    {
      hide Carved, InUse, Live, Inv;
      if elem == 0 {
        return false, 0;
      }
      var at := 0;
      while at < |chain| && chain[at].at != PageOf(elem)
        invariant at <= |chain| && forall k | 0 <= k < at :: chain[k].at != PageOf(elem)
      {
        at := at + 1;
      }
      if at == |chain| {
        return false, 0;
      }
      done, i := true, at;
      var p := chain[at];
      PutBack(pages, size, p, elem);
      var q := p.(free := Inserted(p.free, 0, elem));
      assert q.free == [elem] + p.free;
      ghost var before := chain;
      chain, pages := chain[at := q], pages[p.at := q];
      assert Reaches(chain, pages);
      if |q.free| == q.capacity {
        DropEmpty(at);
        RemovedFull(before, at, q);
      }
      NotBlank(chain, pages, size);
    }

    /**
      What fmtlist_release does when page i has become empty: off the chain, unless it is the first
      one of a process.
     */
    method DropEmpty(i: nat)
      requires Inv(pages, size) && Reaches(chain, pages) && i < |chain| && |chain[i].free| == chain[i].capacity
      modifies this
      ensures Inv(pages, size) && Reaches(chain, pages)
      ensures chain ==
              if KERN_METADATA <= old(chain)[i].at then [] else if i == 0 then old(chain) else Removed(old(chain), i)
      ensures forall e :: IsLive(e) <==> old(IsLive(e))
    {
      hide Carved, InUse, Live, Inv;
      var q := chain[i];
      DropPage(pages, size, q);
      ghost var before := chain;
      if i != 0 {
        chain := Removed(chain, i);
      }
      if q.at >= KERN_METADATA {
        chain := [];
      }
      if i != 0 || q.at >= KERN_METADATA {
        pages := pages - {q.at};
        RemovedReaches(before, pages, i);
      }
    }
  }

  lemma LongerReaches(chain: seq<Page>, pages: map<nat, Page>, i: nat, p: Page)
    requires i <= |chain| && (i == 0 || (i == |chain| && Reaches(chain, pages) && p.at !in pages))
    ensures Reaches(chain[..i] + [p], pages[p.at := p])
  {
  }

  lemma RemovedFull(chain: seq<Page>, i: nat, q: Page)
    requires i < |chain|
    ensures Removed(chain[i := q], i) == Removed(chain, i)
  {
  }

  lemma RemovedReaches(chain: seq<Page>, rest: map<nat, Page>, i: nat)
    requires i < |chain| && forall k, l | 0 <= k < l < |chain| :: chain[k].at != chain[l].at
    requires forall k | 0 <= k < |chain| && k != i :: chain[k].at in rest && rest[chain[k].at] == chain[k]
    ensures Reaches(Removed(chain, i), rest)
  {
    var n := Removed(chain, i);
    assert forall k | 0 <= k < |n| :: n[k] == chain[if k < i then k else k + 1];
  }

  lemma NotBlank(chain: seq<Page>, pages: map<nat, Page>, size: nat)
    requires Inv(pages, size) && Reaches(chain, pages)
    ensures chain != [] ==> 0 < Capacity(size)
    ensures forall k | 0 <= k < |chain| :: chain[k].capacity != 0
  {
    assert chain != [] ==> Carved(pages[chain[0].at], size);
  }

  ghost predicate Reaches(chain: seq<Page>, pages: map<nat, Page>) {
    && (forall i | 0 <= i < |chain| :: chain[i].at in pages && pages[chain[i].at] == chain[i])
    && (forall i, j | 0 <= i < j < |chain| :: chain[i].at != chain[j].at)
  }

  /** The walk passes the pages without free elements, and stops at one of three places. */
  lemma {:induction false} WalkIs(chain: seq<Page>, i: nat, size: nat, newPage: nat)
    requires i <= |chain| && 0 < Capacity(size)
    requires forall k | 0 <= k < i :: chain[k].free == [] && chain[k].capacity != 0
    ensures i < |chain| && chain[i].free != [] ==>
      Granted(chain, size, newPage) == chain[i].free[0]
      && AfterAlloc(chain, size, newPage) == chain[i := chain[i].(free := chain[i].free[1..])]
    ensures i == |chain| || (chain[i].free == [] && chain[i].capacity == 0) ==>
      var at := if i == |chain| then newPage else chain[i].at;
      && Granted(chain, size, newPage) == SlotAt(at, size, 0)
      && AfterAlloc(chain, size, newPage) == chain[..i] + [First(at, size)]
  {
    hide First, Slots, SlotAt, Capacity;
    if i != 0 {
      var rest := chain[1..];
      WalkIs(rest, i - 1, size, newPage);
      assert chain == [chain[0]] + rest && chain[..i] == [chain[0]] + rest[..i - 1];
      assert AfterAlloc(chain, size, newPage) == [chain[0]] + AfterAlloc(rest, size, newPage);
      assert Granted(chain, size, newPage) == Granted(rest, size, newPage);
      hide AfterAlloc, Granted;
    }
  }
}
