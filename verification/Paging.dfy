/**
  kern/mem/pm.c: physical pages, and mappings written through the recursive page map. Addresses
  are numbers below 2^32; PageStuff shows that the macros' bit operations are these sums.
 */
module Paging {
  import opened Bitmaps
  import opened Bytes
  import opened MemoryLayout
  import PageStuff
  import opened Wrappers

  /** the directory entry that maps the directory itself */
  const LAST: nat := 1023

  function PdIndex(va: nat): (i: nat)
    ensures i < 1024
  {
    va / 0x40_0000 % 1024
  }

  function PtIndex(va: nat): (j: nat)
    ensures j < 1024
  {
    va / 4096 % 1024
  }

  function GetPde(va: nat): nat { 0xffff_f000 + PdIndex(va) * 4 }

  function GetPte(va: nat): nat { 0xffc0_0000 + (PdIndex(va) * 4096 + PtIndex(va) * 4) }

  /** PG(entry) */
  function Frame(entry: nat): nat { entry - entry % PGSIZE }

  predicate Present(entry: nat) { entry % 2 == 1 }

  /** The word at a physical address. */
  function Word(m: seq<u32>, pa: nat): u32 {
    if pa / 4 < |m| then m[pa / 4] else 0
  }

  function Put(m: seq<u32>, pa: nat, x: u32): seq<u32> {
    if pa / 4 < |m| then m[pa / 4 := x] else m
  }

  function Pde(m: seq<u32>, cr3: nat, va: nat): u32 {
    Word(m, cr3 + PdIndex(va) * 4)
  }

  /** The entry for va in the page table at t. */
  function Entry(m: seq<u32>, t: nat, va: nat): Option<nat> {
    var pte := Word(m, t + PtIndex(va) * 4);
    if Present(pte) then Some(Frame(pte)) else None
  }

  /** The two-level walk: the frame va's page is mapped to. */
  function Walk(m: seq<u32>, cr3: nat, va: nat): Option<nat> {
    var pde := Pde(m, cr3, va);
    if Present(pde) then Entry(m, Frame(pde), va) else None
  }

  function Translate(m: seq<u32>, cr3: nat, va: nat): Option<nat> {
    match Walk(m, cr3, va)
    case None => None
    case Some(f) => Some(f + va % PGSIZE)
  }

  /** The directory's last entry points at the directory. */
  predicate Recursive(m: seq<u32>, cr3: nat) {
    && cr3 % PGSIZE == 0 && cr3 + PGSIZE <= 4 * |m|
    && Present(Word(m, cr3 + LAST * 4)) && Frame(Word(m, cr3 + LAST * 4)) == cr3
  }

  /** Section 4.3 of the Intel manual, volume 3A: directory index, table index and offset make up an address. */
  lemma AddressParts(i: nat, j: nat, o: nat)
    requires i < 1024 && j < 1024 && o < PGSIZE
    ensures var v := i * 0x40_0000 + j * 4096 + o;
            PdIndex(v) == i && PtIndex(v) == j && v % PGSIZE == o
  {
    var v := i * 0x40_0000 + j * 4096 + o;
    assert v == 4096 * (i * 1024 + j) + o;
    assert v / 4096 == i * 1024 + j;
    assert v == 0x40_0000 * i + (j * 4096 + o);
    assert v / 0x40_0000 == i;
  }

  /** The numbers that this module computes with are those of the macros on 32-bit words. */
  lemma MacrosAreNumbers(va: bv32)
    ensures PageStuff.Number(PageStuff.PdIndex(va)) == PdIndex(PageStuff.Number(va))
    ensures PageStuff.Number(PageStuff.PtIndex(va)) == PtIndex(PageStuff.Number(va))
    ensures PageStuff.Number(PageStuff.GetPde(va)) == GetPde(PageStuff.Number(va))
    ensures PageStuff.Number(PageStuff.GetPte(va)) == GetPte(PageStuff.Number(va))
  {
    hide PageStuff.Number, PageStuff.PdIndex, PageStuff.PtIndex, PageStuff.GetPde, PageStuff.GetPte, PdIndex, PtIndex;
    var i, j, o := PageStuff.MacroNumbers(va);
    AddressParts(i, j, o);
  }

  lemma MacroParts(va: nat)
    ensures PdIndex(GetPte(va)) == LAST && PtIndex(GetPte(va)) == PdIndex(va) && GetPte(va) % PGSIZE == PtIndex(va) * 4
    ensures PdIndex(GetPde(va)) == LAST && PtIndex(GetPde(va)) == LAST && GetPde(va) % PGSIZE == PdIndex(va) * 4
  {
    hide PdIndex, PtIndex;
    var i, j := PdIndex(va), PtIndex(va);
    AddressParts(LAST, i, j * 4);
    AddressParts(LAST, LAST, i * 4);
    assert GetPte(va) == LAST * 0x40_0000 + i * 4096 + j * 4;
    assert GetPde(va) == LAST * 0x40_0000 + LAST * 4096 + i * 4;
  }

  /** Through the recursive map, the macros' addresses reach va's directory and table entries in physical memory. */
  lemma RecursiveMap(m: seq<u32>, cr3: nat, va: nat)
    requires Recursive(m, cr3)
    ensures Translate(m, cr3, GetPde(va)) == Some(cr3 + PdIndex(va) * 4)
    ensures Translate(m, cr3, GetPte(va)) ==
            if Present(Pde(m, cr3, va)) then Some(Frame(Pde(m, cr3, va)) + PtIndex(va) * 4) else None
  {
    MacroParts(va);
    hide PdIndex, PtIndex, GetPde, GetPte;
  }

  /** The same for the macros themselves. */
  lemma MacrosReach(m: seq<u32>, cr3: nat, va: bv32)
    requires Recursive(m, cr3)
    ensures var a := PageStuff.Number(va);
            && Translate(m, cr3, PageStuff.Number(PageStuff.GetPde(va))) == Some(cr3 + PdIndex(a) * 4)
            && Translate(m, cr3, PageStuff.Number(PageStuff.GetPte(va))) ==
               if Present(Pde(m, cr3, a)) then Some(Frame(Pde(m, cr3, a)) + PtIndex(a) * 4) else None
  {
    hide PageStuff.Number, PageStuff.GetPde, PageStuff.GetPte, Translate, Recursive, PdIndex, PtIndex, Pde, Frame;
    MacrosAreNumbers(va);
    RecursiveMap(m, cr3, PageStuff.Number(va));
  }

  /** set_mapping allocates a table unless the directory entry is present for user mode. */
  predicate Lacks(pde: nat) {
    pde % 8 != 7 && pde % 8 != 5
  }

  /** Memory after the directory entry is given table t. */
  function WithTable(m: seq<u32>, cr3: nat, va: nat, t: nat): seq<u32>
    requires t < 0x1_0000_0000 - 7
  {
    if Lacks(Pde(m, cr3, va)) then Put(m, cr3 + PdIndex(va) * 4, t + 7) else m
  }

  /** Memory after the table entry is written too. */
  function Mapped(m: seq<u32>, cr3: nat, va: nat, t: nat, entry: u32): seq<u32>
    requires t < 0x1_0000_0000 - 7
  {
    var m1 := WithTable(m, cr3, va, t);
    Put(m1, Frame(Pde(m1, cr3, va)) + PtIndex(va) * 4, entry)
  }

  /** The table va's page is looked up in afterwards. */
  function TableOf(m: seq<u32>, cr3: nat, va: nat, t: nat): nat {
    if Lacks(Pde(m, cr3, va)) then t else Frame(Pde(m, cr3, va))
  }

  /** Tables lie in memory, apart from the directory. */
  ghost predicate TablesOk(m: seq<u32>, cr3: nat) {
    && Recursive(m, cr3)
    && forall i | 0 <= i < LAST && Present(Word(m, cr3 + i * 4)) ::
         TableOk(m, cr3, Frame(Word(m, cr3 + i * 4)))
  }

  predicate TableOk(m: seq<u32>, cr3: nat, t: nat) {
    t % PGSIZE == 0 && t != cr3 && t + PGSIZE <= 4 * |m|
  }

  /** t can serve as the new table, if one is needed. */
  ghost predicate Fits(m: seq<u32>, cr3: nat, va: nat, t: nat) {
    t < 0x1_0000_0000 - 7 && (Lacks(Pde(m, cr3, va)) ==> TableOk(m, cr3, t))
  }

  /** A frame that no directory entry uses as a table. */
  ghost predicate Unused(m: seq<u32>, cr3: nat, t: nat) {
    forall i | 0 <= i < LAST && Present(Word(m, cr3 + i * 4)) :: Frame(Word(m, cr3 + i * 4)) != t
  }

  lemma SlotIndex(p: nat, i: nat) returns (a: nat)
    requires p % PGSIZE == 0
    ensures a == p / PGSIZE && p == PGSIZE * a && (p + i * 4) / 4 == 1024 * a + i
  {
    a := p / PGSIZE;
  }

  /** Writing entry i of the page-sized table at p, then reading entry j of the one at q. */
  lemma SlotPut(m: seq<u32>, p: nat, i: nat, x: u32, q: nat, j: nat)
    requires p % PGSIZE == 0 && q % PGSIZE == 0 && i < 1024 && j < 1024 && p + PGSIZE <= 4 * |m|
    ensures Word(Put(m, p + i * 4, x), q + j * 4) == if p == q && i == j then x else Word(m, q + j * 4)
    ensures |Put(m, p + i * 4, x)| == |m|
  {
    var a := SlotIndex(p, i);
    var b := SlotIndex(q, j);
    assert 1024 * a + i == 1024 * b + j ==> a == b && i == j;
  }

  /** The directory entry of w after the first write, and an entry of another table. */
  lemma PdeAfter(m: seq<u32>, cr3: nat, va: nat, t: nat, w: nat, x: nat)
    requires Recursive(m, cr3) && t < 0x1_0000_0000 - 7 && x % PGSIZE == 0 && x != cr3
    ensures Pde(WithTable(m, cr3, va, t), cr3, w) ==
            if Lacks(Pde(m, cr3, va)) && PdIndex(w) == PdIndex(va) then t + 7 else Pde(m, cr3, w)
    ensures Word(WithTable(m, cr3, va, t), x + PtIndex(w) * 4) == Word(m, x + PtIndex(w) * 4)
    ensures |WithTable(m, cr3, va, t)| == |m|
  {
    hide PdIndex, PtIndex, Word, Put, Lacks;
    SlotPut(m, cr3, PdIndex(va), t + 7, cr3, PdIndex(w));
    SlotPut(m, cr3, PdIndex(va), t + 7, x, PtIndex(w));
  }

  lemma TableFrame(t: nat)
    requires t % PGSIZE == 0
    ensures Frame(t + 7) == t && Present(t + 7) && !Lacks(t + 7)
  {
  }

  /** The table va is looked up in afterwards lies in memory apart from the directory. */
  lemma TableOfOk(m: seq<u32>, cr3: nat, va: nat, t: nat)
    requires TablesOk(m, cr3) && PdIndex(va) != LAST && Fits(m, cr3, va, t)
    ensures TableOk(m, cr3, TableOf(m, cr3, va, t))
    ensures Frame(Pde(WithTable(m, cr3, va, t), cr3, va)) == TableOf(m, cr3, va, t)
    ensures Present(Pde(WithTable(m, cr3, va, t), cr3, va))
  {
    hide Frame, Word, PdIndex, Present, Lacks;
    if Lacks(Pde(m, cr3, va)) {
      PdeAfter(m, cr3, va, t, va, t);
      TableFrame(t);
    } else {
      UserPresent(Pde(m, cr3, va));
      DirectoryTable(m, cr3, va);
    }
  }

  lemma UserPresent(pde: nat)
    requires !Lacks(pde)
    ensures Present(pde)
  {
  }

  /** The table in which page w is looked up afterwards, if any. */
  function TableAfter(m: seq<u32>, cr3: nat, va: nat, t: nat, w: nat): Option<nat> {
    if Lacks(Pde(m, cr3, va)) && PdIndex(w) == PdIndex(va) then Some(t)
    else if Present(Pde(m, cr3, w)) then Some(Frame(Pde(m, cr3, w)))
    else None
  }

  /** The second write leaves every directory entry and every other table entry alone. */
  lemma SecondWrite(m: seq<u32>, cr3: nat, va: nat, t: nat, entry: u32, x: nat, w: nat)
    requires TablesOk(m, cr3) && PdIndex(va) != LAST && Fits(m, cr3, va, t)
    requires TableOk(m, cr3, x)
    ensures var n, u := Mapped(m, cr3, va, t, entry), TableOf(m, cr3, va, t);
            && Pde(n, cr3, w) == Pde(WithTable(m, cr3, va, t), cr3, w)
            && Word(n, x + PtIndex(w) * 4) ==
               if x == u && PtIndex(w) == PtIndex(va) then entry else Word(m, x + PtIndex(w) * 4)
  {
    hide Frame, Lacks, PdIndex, PtIndex, Word, Put, WithTable, TableOf;
    var m1, u := WithTable(m, cr3, va, t), TableOf(m, cr3, va, t);
    TableOfOk(m, cr3, va, t);
    PdeAfter(m, cr3, va, t, w, x);
    SlotPut(m1, u, PtIndex(va), entry, cr3, PdIndex(w));
    SlotPut(m1, u, PtIndex(va), entry, x, PtIndex(w));
  }

  /**
    The two-level walk of every page after set_mapping: through the table it is looked up in, it
    finds the new entry where that is va's table and slot, and what memory held before elsewhere.
   */
  lemma WalkAfter(m: seq<u32>, cr3: nat, va: nat, t: nat, entry: u32, w: nat)
    requires TablesOk(m, cr3) && PdIndex(va) != LAST && Fits(m, cr3, va, t)
    requires PdIndex(w) != LAST
    ensures Walk(Mapped(m, cr3, va, t, entry), cr3, w) ==
            match TableAfter(m, cr3, va, t, w)
            case None => None
            case Some(u) =>
              if u == TableOf(m, cr3, va, t) && PtIndex(w) == PtIndex(va) then
                if Present(entry) then Some(Frame(entry)) else None
              else Entry(m, u, w)
  {
    hide Word, Put, PdIndex, PtIndex, Lacks, Mapped, WithTable, Frame;
    var u := TableOf(m, cr3, va, t);
    TableOfOk(m, cr3, va, t);
    PdeAfter(m, cr3, va, t, w, u);
    var after := TableAfter(m, cr3, va, t, w);
    if after.Some? {
      if Lacks(Pde(m, cr3, va)) && PdIndex(w) == PdIndex(va) {
        TableFrame(t);
      } else {
        DirectoryTable(m, cr3, w);
      }
      SecondWrite(m, cr3, va, t, entry, after.value, w);
    } else {
      SecondWrite(m, cr3, va, t, entry, u, w);
    }
  }

  lemma DirectoryTable(m: seq<u32>, cr3: nat, w: nat)
    requires TablesOk(m, cr3) && PdIndex(w) != LAST && Present(Pde(m, cr3, w))
    ensures TableOk(m, cr3, Frame(Pde(m, cr3, w)))
  {
  }

  /** set_mapping maps va's page to the frame it was given. */
  lemma MapsPage(m: seq<u32>, cr3: nat, va: nat, t: nat, entry: u32)
    requires TablesOk(m, cr3) && PdIndex(va) != LAST && Fits(m, cr3, va, t)
    requires Present(entry)
    ensures Walk(Mapped(m, cr3, va, t, entry), cr3, va) == Some(Frame(entry))
  {
    OwnTable(m, cr3, va, t);
    hide Mapped, PdIndex, PtIndex, Frame, Word, Walk, TablesOk, Fits, TableAfter, TableOf, Lacks, Present;
    WalkAfter(m, cr3, va, t, entry, va);
  }

  lemma OwnTable(m: seq<u32>, cr3: nat, va: nat, t: nat)
    ensures TableAfter(m, cr3, va, t, va) == Some(TableOf(m, cr3, va, t))
  {
    hide PdIndex, Word, Frame;
  }

  /** Pages w and va have their entries in the same slot of one table. */
  ghost predicate Shares(m: seq<u32>, cr3: nat, va: nat, w: nat) {
    Frame(Pde(m, cr3, w)) == Frame(Pde(m, cr3, va)) && PtIndex(w) == PtIndex(va)
  }

  /**
    A page mapped before keeps its frame, also when a table is allocated, unless its directory
    entry is present but not for user mode and gets replaced, or it shares va's slot.
   */
  lemma OthersKeep(m: seq<u32>, cr3: nat, va: nat, t: nat, entry: u32, w: nat)
    requires TablesOk(m, cr3) && PdIndex(va) != LAST && Fits(m, cr3, va, t)
    requires (Lacks(Pde(m, cr3, va)) ==> Unused(m, cr3, t)) && PdIndex(w) != LAST && Walk(m, cr3, w).Some?
    ensures if Lacks(Pde(m, cr3, va)) then
              PdIndex(w) != PdIndex(va) ==> Walk(Mapped(m, cr3, va, t, entry), cr3, w) == Walk(m, cr3, w)
            else if Shares(m, cr3, va, w) then
              Walk(Mapped(m, cr3, va, t, entry), cr3, w) == Walk(Mapped(m, cr3, va, t, entry), cr3, va)
            else
              Walk(Mapped(m, cr3, va, t, entry), cr3, w) == Walk(m, cr3, w)
  {
    hide Mapped, PdIndex, PtIndex, Frame, Word, TablesOk, Unused, Fits, Entry;
    OwnTable(m, cr3, va, t);
    WalkAfter(m, cr3, va, t, entry, w);
    WalkAfter(m, cr3, va, t, entry, va);
    if Lacks(Pde(m, cr3, va)) {
      assert Frame(Pde(m, cr3, w)) != t by {
        UnusedTable(m, cr3, t, w);
      }
    }
  }

  /** Every present directory entry is for user mode, as each one that the kernel writes is. */
  ghost predicate UserTables(m: seq<u32>, cr3: nat) {
    forall i | 0 <= i < LAST && Present(Word(m, cr3 + i * 4)) :: !Lacks(Word(m, cr3 + i * 4))
  }

  /**
    With such a directory, a page mapped before keeps its frame exactly when it does not share
    va's slot, or had the new frame already.
   */
  lemma KeepsFrameIff(m: seq<u32>, cr3: nat, va: nat, t: nat, entry: u32, w: nat)
    requires TablesOk(m, cr3) && UserTables(m, cr3) && PdIndex(va) != LAST && Fits(m, cr3, va, t)
    requires (Lacks(Pde(m, cr3, va)) ==> Unused(m, cr3, t)) && PdIndex(w) != LAST && Walk(m, cr3, w).Some?
    requires Present(entry)
    ensures Walk(Mapped(m, cr3, va, t, entry), cr3, w) == Walk(m, cr3, w) <==>
            !(Present(Pde(m, cr3, va)) && Shares(m, cr3, va, w)) || Walk(m, cr3, w) == Some(Frame(entry))
  {
    hide Mapped, PdIndex, PtIndex, Frame, Word, TablesOk, Unused, Fits, Entry, Lacks, Present, Shares;
    UserEntry(m, cr3, va);
    OthersKeep(m, cr3, va, t, entry, w);
    MapsPage(m, cr3, va, t, entry);
  }

  lemma UserEntry(m: seq<u32>, cr3: nat, va: nat)
    requires UserTables(m, cr3) && PdIndex(va) != LAST
    ensures Lacks(Pde(m, cr3, va)) <==> !Present(Pde(m, cr3, va))
  {
    hide PdIndex, Word;
    if !Lacks(Pde(m, cr3, va)) {
      UserPresent(Pde(m, cr3, va));
    }
  }

  lemma UnusedTable(m: seq<u32>, cr3: nat, t: nat, w: nat)
    requires Unused(m, cr3, t) && PdIndex(w) != LAST && Present(Pde(m, cr3, w))
    ensures Frame(Pde(m, cr3, w)) != t
  {
  }

  /**
    The new table is not cleared: a page whose directory entry was missing stays unmapped exactly
    when the word that its entry lands on was not present already.
   */
  lemma StaysUnmappedIff(m: seq<u32>, cr3: nat, va: nat, t: nat, entry: u32, w: nat)
    requires TablesOk(m, cr3) && PdIndex(va) != LAST && Fits(m, cr3, va, t)
    requires Lacks(Pde(m, cr3, va)) && PdIndex(w) == PdIndex(va) && PtIndex(w) != PtIndex(va)
    ensures Walk(Mapped(m, cr3, va, t, entry), cr3, w) == None <==> !Present(Word(m, t + PtIndex(w) * 4))
  {
    WalkAfter(m, cr3, va, t, entry, w);
    hide Mapped, PdIndex, PtIndex, Frame, Lacks, Word, TablesOk;
  }

  /** The frame index behind a physical address. */
  function Index(pa: nat): nat
    requires MM_BASE <= pa
  {
    (pa - MM_BASE) / PGSIZE
  }

  /** A table in low memory, or in a page whose bit is set. */
  ghost predicate Held(bits: seq<u8>, len: nat, t: nat) {
    t < MM_BASE || (Index(t) < len && Bit(bits, Index(t)))
  }

  /** The directory and every table in use are held, so no allocation can return one of them. */
  ghost predicate TablesHeld(m: seq<u32>, cr3: nat, bits: seq<u8>, len: nat) {
    && Held(bits, len, cr3)
    && forall i | 0 <= i < LAST && Present(Word(m, cr3 + i * 4)) :: Held(bits, len, Frame(Word(m, cr3 + i * 4)))
  }

  /** The page of this index holds the directory or a table. */
  ghost predicate TableAt(m: seq<u32>, cr3: nat, i: nat) {
    || (MM_BASE <= cr3 && Index(cr3) == i)
    || exists k :: 0 <= k < LAST && Present(Word(m, cr3 + k * 4))
                   && MM_BASE <= Frame(Word(m, cr3 + k * 4)) && Index(Frame(Word(m, cr3 + k * 4))) == i
  }

  /** The directory as it was, but for the entry of va when a table is added. */
  ghost predicate SameDirectory(m: seq<u32>, n: seq<u32>, cr3: nat, va: nat, t: nat) {
    && |n| == |m|
    && forall i: nat | i < 1024 ::
         Word(n, cr3 + i * 4) == if Lacks(Pde(m, cr3, va)) && i == PdIndex(va) then t + 7 else Word(m, cr3 + i * 4)
  }

  lemma TablesRecursive(m: seq<u32>, cr3: nat)
    requires TablesOk(m, cr3)
    ensures Recursive(m, cr3)
  {
    hide Word, Frame, Present, Recursive;
  }

  lemma DirectoryAfter(m: seq<u32>, cr3: nat, va: nat, t: nat, entry: u32)
    requires TablesOk(m, cr3) && PdIndex(va) != LAST && Fits(m, cr3, va, t)
    ensures SameDirectory(m, WithTable(m, cr3, va, t), cr3, va, t)
    ensures SameDirectory(m, Mapped(m, cr3, va, t, entry), cr3, va, t)
  {
    hide PdIndex, PtIndex, Word, Frame, Lacks, TablesOk, WithTable;
    TablesRecursive(m, cr3);
    var u := TableOf(m, cr3, va, t);
    TableOfOk(m, cr3, va, t);
    forall i: nat | i < 1024
      ensures var e := if Lacks(Pde(m, cr3, va)) && i == PdIndex(va) then t + 7 else Word(m, cr3 + i * 4);
              Word(WithTable(m, cr3, va, t), cr3 + i * 4) == e && Word(Mapped(m, cr3, va, t, entry), cr3 + i * 4) == e
    {
      var w := i * 0x40_0000 + 0 * 4096 + 0;
      AddressParts(i, 0, 0);
      PdeAfter(m, cr3, va, t, w, u);
      SecondWrite(m, cr3, va, t, entry, u, w);
    }
    PdeAfter(m, cr3, va, t, va, u);
  }

  lemma TablesKept(m: seq<u32>, n: seq<u32>, cr3: nat, va: nat, t: nat, bits: seq<u8>, len: nat)
    requires TablesOk(m, cr3) && TablesHeld(m, cr3, bits, len) && SameDirectory(m, n, cr3, va, t)
    requires PdIndex(va) != LAST && Fits(m, cr3, va, t)
    requires Lacks(Pde(m, cr3, va)) ==> Held(bits, len, t)
    ensures TablesOk(n, cr3) && TablesHeld(n, cr3, bits, len)
    ensures UserTables(m, cr3) ==> UserTables(n, cr3)
  {
    if Lacks(Pde(m, cr3, va)) {
      TableFrame(t);
    }
    hide PdIndex, Word, Frame, Held, Lacks, Present;
  }

  /** Setting a bit gives up no table; a page whose bit was clear is no table. */
  lemma TablesHeldMore(m: seq<u32>, cr3: nat, bits: seq<u8>, len: nat, i: nat)
    requires TablesHeld(m, cr3, bits, len) && i < len <= 8 * |bits|
    ensures TablesHeld(m, cr3, WithBit(bits, i, true), len)
    ensures Held(WithBit(bits, i, true), len, i * PGSIZE + MM_BASE)
    ensures !Bit(bits, i) ==> Unused(m, cr3, i * PGSIZE + MM_BASE) && cr3 != i * PGSIZE + MM_BASE
  {
    WithBitEffect(bits, i, true);
    hide Bit, WithBit, Word, Frame, Present;
  }

  lemma TablesHeldLess(m: seq<u32>, cr3: nat, bits: seq<u8>, len: nat, i: nat)
    requires TablesHeld(m, cr3, bits, len) && i < len <= 8 * |bits| && !TableAt(m, cr3, i)
    ensures TablesHeld(m, cr3, WithBit(bits, i, false), len)
  {
    WithBitEffect(bits, i, false);
    hide Bit, WithBit, Word, Frame, Present;
  }

  class PhysicalMemory {
    const mem: array<u32>
    const bm: Bitmap
    const cr3: nat

    ghost predicate Valid()
      reads this, mem, bm, bm.buff
    {
      && bm.Valid() && (mem as object) != (bm.buff as object)
      && MM_BASE + PGSIZE * bm.len <= 4 * mem.Length <= 0x1_0000_0000
      && TablesOk(mem[..], cr3) && UserTables(mem[..], cr3) && TablesHeld(mem[..], cr3, bm.buff[..], bm.len)
    }

    /** init_phymm_system, once paging() has set up its tables in low memory. */
    constructor (mem: array<u32>, cr3: nat, memSize: nat)
      requires PGSIZE <= memSize && MM_BASE + memSize <= 4 * mem.Length <= 0x1_0000_0000
      requires TablesOk(mem[..], cr3) && UserTables(mem[..], cr3) && cr3 < MM_BASE
      requires forall i | 0 <= i < LAST && Present(Word(mem[..], cr3 + i * 4)) ::
                 Frame(Word(mem[..], cr3 + i * 4)) < MM_BASE
      ensures Valid() && this.mem == mem && this.cr3 == cr3 && bm.len == memSize / PGSIZE && fresh(bm) && fresh(bm.buff)
      ensures bm.buff[..] == seq(131072, _ => 0)
    {
      this.mem, this.cr3 := mem, cr3;
      bm := new Bitmap(memSize / PGSIZE, 131072);
    }

    /** phy_alloc_page; None is the bitmap's panic. */
    method AllocPage() returns (r: Option<nat>)
      requires Valid()
      modifies bm, bm.buff
      ensures Valid()
      ensures r.None? <==> old(AllSet(bm.buff[..], bm.len))
      ensures r.None? ==> bm.buff[..] == old(bm.buff[..])
      ensures r.Some? ==> r.value % PGSIZE == 0 && MM_BASE <= r.value && Index(r.value) < bm.len
                          && FirstClear(old(bm.buff[..]), bm.len, old(bm.prevFree), Index(r.value))
                          && bm.buff[..] == WithBit(old(bm.buff[..]), Index(r.value), true)
      ensures r.Some? ==> TableOk(mem[..], cr3, r.value) && Unused(mem[..], cr3, r.value)
                          && Held(bm.buff[..], bm.len, r.value)
    {
      hide Bit, TablesOk, UserTables, TablesHeld, WithBit, Unused;
      var i := bm.ScanEmpty();
      if i.None? {
        return None;
      }
      ghost var bits := bm.buff[..];
      assert mem[..] == old(mem[..]);
      TablesHeldMore(mem[..], cr3, bits, bm.len, i.value);
      bm.Set(i.value);
      assert mem[..] == old(mem[..]);
      PageAddress(i.value);
      hide Index;
      r := Some(i.value * PGSIZE + MM_BASE);
    }

    /** phy_release_page */
    method ReleasePage(pa: nat)
      requires Valid() && (pa != 0 ==> MM_BASE <= pa && Index(pa) < bm.len)
      requires pa != 0 ==> !TableAt(mem[..], cr3, Index(pa))
      modifies bm.buff
      ensures Valid()
      ensures bm.buff[..] == if pa == 0 then old(bm.buff[..]) else WithBit(old(bm.buff[..]), Index(pa), false)
    {
      hide Bit, TablesOk, UserTables, TablesHeld, WithBit, TableAt;
      if pa == 0 {
        return;
      }
      TablesHeldLess(mem[..], cr3, bm.buff[..], bm.len, Index(pa));
      bm.Clear(Index(pa));
      assert mem[..] == old(mem[..]);
    }

    /** A 32-bit load through the page map. */
    method Load(va: nat) returns (x: u32)
      requires Translate(mem[..], cr3, va).Some?
      ensures x == Word(mem[..], Translate(mem[..], cr3, va).value)
    {
      var pa := Translate(mem[..], cr3, va).value;
      x := if pa / 4 < mem.Length then mem[pa / 4] else 0;
    }

    /** A 32-bit store through the page map. */
    method Store(va: nat, x: u32)
      requires Translate(mem[..], cr3, va).Some? && Translate(mem[..], cr3, va).value / 4 < mem.Length
      modifies mem
      ensures mem[..] == Put(old(mem[..]), old(Translate(mem[..], cr3, va).value), x)
    {
      var pa := Translate(mem[..], cr3, va).value;
      mem[pa / 4] := x;
    }

    /** set_mapping; false where phy_alloc_page panics. Its reads and writes go through the recursive map. */
    method SetMapping(va: nat, pa: nat, flags: nat) returns (ok: bool, ghost t: nat)
      requires Valid() && PdIndex(va) != LAST
      requires pa % PGSIZE == 0 && pa < 0x1_0000_0000 && flags < PGSIZE
      modifies mem, bm, bm.buff
      ensures Valid()
      ensures ok <==> !(old(Lacks(Pde(mem[..], cr3, va)) && AllSet(bm.buff[..], bm.len)))
      ensures !ok ==> mem[..] == old(mem[..])
      ensures ok ==> Fits(old(mem[..]), cr3, va, t) && mem[..] == Mapped(old(mem[..]), cr3, va, t, pa + flags)
      ensures ok && old(Lacks(Pde(mem[..], cr3, va))) ==>
        && Unused(old(mem[..]), cr3, t) && t % PGSIZE == 0 && MM_BASE <= t && Index(t) < bm.len
        && FirstClear(old(bm.buff[..]), bm.len, old(bm.prevFree), Index(t))
    {
      hide Word, Put, PdIndex, PtIndex, GetPde, GetPte, Frame, TablesOk, UserTables, TablesHeld, Bit, Unused, Walk,
           Translate, Index;
      ghost var m := mem[..];
      TablesRecursive(m, cr3);
      EntryFits(pa, flags);
      RecursiveMap(m, cr3, va);
      var pde := Load(GetPde(va));
      t := 0;
      if pde % 8 != 7 && pde % 8 != 5 {
        var page := AllocPage();
        if page.None? {
          return false, 0;
        }
        t := page.value;
        Store(GetPde(va), page.value + 7);
      }
      DirectoryAfter(m, cr3, va, t, pa + flags);
      TablesKept(m, mem[..], cr3, va, t, bm.buff[..], bm.len);
      RecursiveMap(mem[..], cr3, va);
      TableOfOk(m, cr3, va, t);
      Store(GetPte(va), pa + flags);
      TablesKept(m, mem[..], cr3, va, t, bm.buff[..], bm.len);
      ok := true;
    }
  }

  lemma PageAddress(i: nat)
    ensures (i * PGSIZE + MM_BASE) % PGSIZE == 0 && Index(i * PGSIZE + MM_BASE) == i
  {
    assert i * PGSIZE + MM_BASE == PGSIZE * (i + 256);
  }

  lemma EntryFits(pa: nat, flags: nat)
    requires pa % PGSIZE == 0 && pa < 0x1_0000_0000 && flags < PGSIZE
    ensures pa + flags < 0x1_0000_0000 && Frame(pa + flags) == pa
  {
  }
}
