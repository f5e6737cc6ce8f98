/** kern/page/page.c: the first page tables, and what they make of later mappings. */
module PageSetup {
  import opened Bitmaps
  import opened Bytes
  import opened MemoryLayout
  import opened Paging
  import opened Wrappers

  /** PGDIR_HOO as a physical address, and SEG_PGTABLE * 16 */
  const DIRECTORY: nat := 0x7_8000
  const TABLE: nat := 0x7_9000
  /** PD_INDEX(KERN_HIGH_MAPPING) */
  const HIGH: nat := 512

  /**
    paging(): low memory is mapped one to one, at address 0 and again at KERN_HIGH_MAPPING, through
    one table. The directory's other entries must not be present: nothing clears them.
   */
  method SetUpPaging(mem: array<u32>)
    requires MM_BASE <= 4 * mem.Length <= 0x1_0000_0000
    requires forall i | 0 < i < LAST && i != HIGH :: !Present(Word(mem[..], DIRECTORY + i * 4))
    modifies mem
    ensures TwoEntries(mem[..])
    ensures forall k | MM_BASE / 4 <= k < mem.Length :: mem[k] == old(mem[k])
  {
    mem[DIRECTORY / 4] := TABLE + 7;
    mem[DIRECTORY / 4 + HIGH] := mem[DIRECTORY / 4];
    mem[DIRECTORY / 4 + LAST] := DIRECTORY + 7;
    var i := 0;
    while i < MM_BASE / PGSIZE
      invariant 0 <= i <= MM_BASE / PGSIZE
      invariant forall k | 0 <= k < i :: mem[TABLE / 4 + k] == k * PGSIZE + 7
      invariant forall k | 0 <= k < mem.Length && !(TABLE / 4 <= k < TABLE / 4 + 256) ::
                  mem[k] == if k == DIRECTORY / 4 || k == DIRECTORY / 4 + HIGH then TABLE + 7
                            else if k == DIRECTORY / 4 + LAST then DIRECTORY + 7 else old(mem[k])
    {
      mem[TABLE / 4 + i] := i * PGSIZE + 7;
      i := i + 1;
    }
  }

  /** The directory after paging(): two entries for one table of the first 256 frames, and itself. */
  ghost predicate TwoEntries(m: seq<u32>) {
    && MM_BASE <= 4 * |m|
    && (forall i | 0 <= i < LAST && i != 0 && i != HIGH :: !Present(Word(m, DIRECTORY + i * 4)))
    && Word(m, DIRECTORY) == Word(m, DIRECTORY + HIGH * 4) == TABLE + 7
    && Word(m, DIRECTORY + LAST * 4) == DIRECTORY + 7
    && forall k | 0 <= k < 256 :: Word(m, TABLE + k * 4) == k * PGSIZE + 7
  }

  lemma SetUpTables(m: seq<u32>)
    requires TwoEntries(m)
    ensures TablesOk(m, DIRECTORY) && UserTables(m, DIRECTORY)
    ensures forall i | 0 <= i < LAST && Present(Word(m, DIRECTORY + i * 4)) ::
              Frame(Word(m, DIRECTORY + i * 4)) == TABLE
  {
    TableFrame(TABLE);
    TableFrame(DIRECTORY);
    forall i | 0 <= i < LAST && Present(Word(m, DIRECTORY + i * 4))
      ensures Word(m, DIRECTORY + i * 4) == TABLE + 7
    {
    }
    hide Word, Present, Frame, Lacks;
  }

  /** The first 256 pages, low and high, are mapped to the frames of the same number, and share their slots. */
  lemma SetUpWalks(m: seq<u32>, k: nat)
    requires TwoEntries(m) && k < 256
    ensures var low, high := k * PGSIZE, k * PGSIZE + KERN_HIGH_MAPPING;
            && Walk(m, DIRECTORY, low) == Walk(m, DIRECTORY, high) == Some(k * PGSIZE)
            && Shares(m, DIRECTORY, low, high)
            && PdIndex(low) == 0 && PdIndex(high) == HIGH && Present(Pde(m, DIRECTORY, low))
  {
    AddressParts(0, k, 0);
    AddressParts(HIGH, k, 0);
    TableFrame(TABLE);
    TableFrame(k * PGSIZE);
    hide PdIndex, PtIndex, Word, Present, Frame;
  }

  /** After paging(), mapping a page of low memory anew moves its twin above KERN_HIGH_MAPPING along. */
  lemma TwinMoves(m: seq<u32>, k: nat, t: nat, entry: u32)
    requires TwoEntries(m) && k < 256 && t < 0x1_0000_0000 - 7 && Present(entry)
    ensures TablesOk(m, DIRECTORY) && PdIndex(k * PGSIZE) != LAST && Fits(m, DIRECTORY, k * PGSIZE, t)
    ensures Walk(Mapped(m, DIRECTORY, k * PGSIZE, t, entry), DIRECTORY, k * PGSIZE + KERN_HIGH_MAPPING)
         == Some(Frame(entry))
  {
    SetUpTables(m);
    SetUpWalks(m, k);
    hide TwoEntries, TablesOk, UserTables, Mapped, PdIndex, PtIndex, Frame, Word, Walk, Present, Lacks, Shares;
    UserEntry(m, DIRECTORY, k * PGSIZE);
    OthersKeep(m, DIRECTORY, k * PGSIZE, t, entry, k * PGSIZE + KERN_HIGH_MAPPING);
    MapsPage(m, DIRECTORY, k * PGSIZE, t, entry);
  }

  /**
    A run that maps a page nobody asked for: boot with a left-over word in the first page of the
    pool, and map page 1024; page 1025, unmapped before (m), now has the left-over frame.
   */
  method LeftOverMapping(mem: array<u32>) returns (pm: PhysicalMemory, ghost m: seq<u32>)
    requires MM_BASE + PGSIZE <= 4 * mem.Length <= 0x1_0000_0000
    requires forall i | 0 < i < LAST && i != HIGH :: !Present(Word(mem[..], DIRECTORY + i * 4))
    requires mem[MM_BASE / 4 + 1] == 7
    modifies mem
    ensures pm.Valid() && pm.mem == mem && pm.cr3 == DIRECTORY
    ensures Walk(m, DIRECTORY, 0x40_1000) == None && TwoEntries(m)
    ensures mem[..] == Mapped(m, DIRECTORY, 0x40_0000, MM_BASE, 7)
    ensures Walk(mem[..], DIRECTORY, 0x40_0000) == Some(0) && Walk(mem[..], DIRECTORY, 0x40_1000) == Some(0)
  {
    SetUpPaging(mem);
    m := mem[..];
    SetUpTables(m);
    NotMapped(m);
    pm := new PhysicalMemory(mem, DIRECTORY, PGSIZE);
    ZeroBits(pm.bm.buff[..]);
    assert !AllSet(pm.bm.buff[..], pm.bm.len);
    hide TwoEntries, TablesOk, UserTables, TablesHeld, Mapped, PdIndex, PtIndex, Frame, Walk, Shares, Fits, Unused,
         AllSet, FirstClear, Word;
    var ok;
    ghost var t;
    ok, t := pm.SetMapping(0x40_0000, 0, 7);
    FirstFrame(t);
    StaysUnmappedIff(m, DIRECTORY, 0x40_0000, t, 7, 0x40_1000);
    WalkAfter(m, DIRECTORY, 0x40_0000, t, 7, 0x40_1000);
    MapsPage(m, DIRECTORY, 0x40_0000, t, 7);
  }

  lemma FirstFrame(t: nat)
    requires t % PGSIZE == 0 && MM_BASE <= t && Index(t) < 1
    ensures t == MM_BASE
  {
  }

  lemma ZeroBits(bits: seq<u8>)
    requires bits != [] && forall k | 0 <= k < |bits| :: bits[k] == 0
    ensures !Bit(bits, 0)
  {
    assert ToBits(bits[0]) == 0;
  }

  /** Pages 1024 and 1025 after paging(). */
  lemma NotMapped(m: seq<u32>)
    requires TwoEntries(m)
    ensures PdIndex(0x40_0000) == PdIndex(0x40_1000) == 1 && PtIndex(0x40_0000) == 0 && PtIndex(0x40_1000) == 1
    ensures Lacks(Pde(m, DIRECTORY, 0x40_0000)) && Walk(m, DIRECTORY, 0x40_1000) == None
  {
    AddressParts(1, 0, 0);
    AddressParts(1, 1, 0);
    assert !Present(Word(m, DIRECTORY + 1 * 4));
    hide PdIndex, PtIndex, Word;
  }
}
