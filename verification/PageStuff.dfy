/** kern/page/page_stuff.h: the address macros on 32-bit words, and the laws of the recursive page map. */
module PageStuff {

  function PgDown(va: bv32): bv32 { va & !0xfff }

  function PdIndex(va: bv32): bv32 { (va >> 22) & 0x3ff }

  function PtIndex(va: bv32): bv32 { (va >> 12) & 0x3ff }

  /** GET_PDE: where the recursive map shows va's page-directory entry. */
  function GetPde(va: bv32): bv32 { 0xffff_f000 | (PdIndex(PgDown(va)) * 4) }

  /** GET_PTE: where it shows va's page-table entry. */
  function GetPte(va: bv32): bv32 { 0xffc0_0000 | ((PdIndex(PgDown(va)) << 12) | (PtIndex(PgDown(va)) * 4)) }

  /** The page whose table entry is shown at `pte`. */
  function PageAt(pte: bv32): bv32 { (((pte >> 12) & 0x3ff) << 22) | (((pte & 0xfff) >> 2) << 12) }

  lemma PageRecovered(va: bv32)
    ensures PageAt(GetPte(va)) == PgDown(va)
  {
  }

  /** Two addresses share their GET_PTE exactly when they lie in the same page. */
  lemma PteInjective(a: bv32, b: bv32)
    ensures GetPte(a) == GetPte(b) <==> PgDown(a) == PgDown(b)
  {
    PageRecovered(a);
    PageRecovered(b);
    hide PageAt, PgDown, PdIndex, PtIndex;
  }

  /** The entry of an entry is the directory entry, and the directory is its own table. */
  lemma PteOfPte(va: bv32)
    ensures GetPte(GetPte(va)) == GetPde(va)
    ensures GetPde(GetPte(va)) == 0xffff_fffc
  {
  }

  lemma EntryAddress(i: bv32, j: bv32)
    requires i < 1024 && j < 1024
    ensures ((0xffff_f000 | (i * 4)) << 10) | (j * 4) == GetPte((i << 22) | (j << 12))
    ensures 0xffff_f000 | (i * 4) == GetPde((i << 22) | (j << 12))
  {
  }

  lemma NoCarry(i: bv32, j: bv32)
    requires i < 1024 && j < 1024
    ensures 0xffff_f000 | (i * 4) == 0xffff_f000 + i * 4
    ensures 0xffc0_0000 | ((i << 12) | (j * 4)) == 0xffc0_0000 + ((i << 12) + j * 4)
  {
  }

  /** fork() and exit() form the address of entry j of table i from the address of directory entry i. */
  lemma TableWalkAddress(i: bv32, j: bv32)
    requires i < 1024 && j < 1024
    ensures ((0xffff_f000 + i * 4) << 10) | (j * 4) == GetPte((i << 22) | (j << 12))
    ensures 0xffff_f000 + i * 4 == GetPde((i << 22) | (j << 12))
  {
    NoCarry(i, j);
    EntryAddress(i, j);
  }

  lemma IndexParts(va: bv32)
    ensures PdIndex(PgDown(va)) == PdIndex(va) < 1024 && PtIndex(PgDown(va)) == PtIndex(va) < 1024
  {
  }

  lemma MacrosFromIndexes(va: bv32, i: bv32, j: bv32)
    requires PdIndex(PgDown(va)) == i && PtIndex(PgDown(va)) == j
    ensures GetPde(va) == 0xffff_f000 | (i * 4)
    ensures GetPte(va) == 0xffc0_0000 | ((i << 12) | (j * 4))
  {
    hide PdIndex, PtIndex, PgDown;
  }

  /** No OR in the macros meets a set bit: they are the sums that Paging computes with. */
  lemma MacrosAreSums(va: bv32, i: bv32, j: bv32)
    requires PdIndex(va) == i && PtIndex(va) == j
    ensures GetPde(va) == 0xffff_f000 + i * 4
    ensures GetPte(va) == 0xffc0_0000 + ((i << 12) + j * 4)
  {
    IndexParts(va);
    hide PdIndex, PtIndex, PgDown, GetPde, GetPte;
    MacrosFromIndexes(va, i, j);
    NoCarry(i, j);
  }

  /** A word as a number. */
  function Number(x: bv32): nat { x as nat }

  /** The three parts of an address, and an address from its parts. */
  function High(va: bv32): bv10 { ((va >> 22) & 0x3ff) as bv10 }

  function Middle(va: bv32): bv10 { ((va >> 12) & 0x3ff) as bv10 }

  function Low(va: bv32): bv12 { (va & 0xfff) as bv12 }

  function Address(i: bv10, j: bv10, o: bv12): bv32 {
    ((i as bv32) << 22) | ((j as bv32) << 12) | (o as bv32)
  }

  lemma PartsNumber(i: bv10, j: bv10, o: bv12)
    ensures Number(((i as bv32) << 22) | ((j as bv32) << 12) | (o as bv32))
            == (i as nat) * 0x40_0000 + (j as nat) * 4096 + (o as nat)
  {
  }

  lemma AddressNumber(i: bv10, j: bv10, o: bv12)
    ensures Number(Address(i, j, o)) == (i as nat) * 0x40_0000 + (j as nat) * 4096 + (o as nat)
  {
    PartsNumber(i, j, o);
    hide Number;
  }

  lemma AddressOfParts(va: bv32)
    ensures va == Address(High(va), Middle(va), Low(va))
  {
  }

  lemma IndexesAreParts(va: bv32)
    ensures PdIndex(va) == High(va) as bv32 && PtIndex(va) == Middle(va) as bv32
  {
  }

  lemma FormedAddresses(i: bv10, j: bv10)
    ensures 0xffff_f000 | ((i as bv32) * 4) == Address(0x3ff, 0x3ff, (i as bv12) << 2)
    ensures 0xffc0_0000 | (((i as bv32) << 12) | ((j as bv32) * 4)) == Address(0x3ff, i, (j as bv12) << 2)
  {
  }

  lemma IndexNumber(i: bv10)
    ensures Number(i as bv32) == i as nat < 1024
  {
  }

  lemma EntryNumber(i: bv10)
    ensures ((i as bv12) << 2) as nat == (i as nat) * 4
  {
  }

  /** The addresses formed from two indexes, as numbers. */
  lemma FormedNumbers(i: bv10, j: bv10)
    ensures Number(0xffff_f000 | ((i as bv32) * 4)) == 0xffff_f000 + (i as nat) * 4
    ensures Number(0xffc0_0000 | (((i as bv32) << 12) | ((j as bv32) * 4))) ==
            0xffc0_0000 + (i as nat) * 4096 + (j as nat) * 4
  {
    hide Number, Address;
    FormedAddresses(i, j);
    EntryNumber(i);
    EntryNumber(j);
    AddressNumber(0x3ff, 0x3ff, (i as bv12) << 2);
    AddressNumber(0x3ff, i, (j as bv12) << 2);
  }

  lemma MacrosFromParts(va: bv32, i: bv10, j: bv10)
    requires PdIndex(va) == i as bv32 && PtIndex(va) == j as bv32
    ensures Number(GetPde(va)) == 0xffff_f000 + (i as nat) * 4
    ensures Number(GetPte(va)) == 0xffc0_0000 + (i as nat) * 4096 + (j as nat) * 4
  {
    IndexParts(va);
    hide PdIndex, PtIndex, PgDown, GetPde, GetPte, Number;
    MacrosFromIndexes(va, i as bv32, j as bv32);
    FormedNumbers(i, j);
  }

  /** An address and what the macros make of it, all as numbers. */
  lemma MacroNumbers(va: bv32) returns (i: nat, j: nat, o: nat)
    ensures i < 1024 && j < 1024 && o < 4096
    ensures Number(va) == i * 0x40_0000 + j * 4096 + o
    ensures Number(PdIndex(va)) == i && Number(PtIndex(va)) == j
    ensures Number(GetPde(va)) == 0xffff_f000 + i * 4
    ensures Number(GetPte(va)) == 0xffc0_0000 + i * 4096 + j * 4
  {
    var a, b, c := High(va), Middle(va), Low(va);
    i, j, o := a as nat, b as nat, c as nat;
    hide PdIndex, PtIndex, GetPde, GetPte, Number, High, Middle, Low, Address;
    AddressOfParts(va);
    IndexesAreParts(va);
    AddressNumber(a, b, c);
    IndexNumber(a);
    IndexNumber(b);
    MacrosFromParts(va, a, b);
  }
}
