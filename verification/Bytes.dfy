/** Bytes, little-endian words and buffer copies, as the kernel's C code sees them. */
module Bytes {

  type u8 = x: int | 0 <= x < 0x100
  type u32 = x: int | 0 <= x < 0x1_0000_0000

  /** BYTES_SECTOR of the ATA driver. */
  const BYTES_SECTOR: nat := 512

  /** LBA_ITEMS_PER_SECTOR: how many 32-bit block numbers one sector holds. */
  const LBAS_PER_SECTOR: nat := 128

  type Sector = s: seq<u8> | |s| == 512 witness seq(512, _ => 0)

  function ZeroSector(): Sector { seq(512, _ => 0) }

  /** memmove(buf + off, src, |src|) inside one buffer. */
  function Splice(buf: seq<u8>, off: nat, src: seq<u8>): (r: seq<u8>)
    requires off + |src| <= |buf|
    ensures |r| == |buf|
    ensures r[off..off + |src|] == src
  {
    buf[..off] + src + buf[off + |src|..]
  }

  /** A splice leaves every disjoint stretch of the buffer alone. */
  lemma SpliceElsewhere(buf: seq<u8>, off: nat, src: seq<u8>, a: nat, b: nat)
    requires off + |src| <= |buf|
    requires a <= b <= off || off + |src| <= a <= b <= |buf|
    ensures Splice(buf, off, src)[a..b] == buf[a..b]
  {
    var r := Splice(buf, off, src);
    forall k | a <= k < b
      ensures r[k] == buf[k]
    {
    }
  }

  lemma SplicePrefix(buf: seq<u8>, off: nat, src: seq<u8>)
    requires off + |src| <= |buf|
    ensures Splice(buf, off, src)[..off + |src|] == buf[..off] + src
  {
  }

  lemma SpliceElement(buf: seq<u8>, off: nat, src: seq<u8>, k: nat)
    requires off + |src| <= |buf| && k < |buf|
    ensures Splice(buf, off, src)[k] == if off <= k < off + |src| then src[k - off] else buf[k]
  {
  }

  lemma SpliceIs(buf: seq<u8>, off: nat, src: seq<u8>, after: seq<u8>)
    requires off + |src| <= |buf| == |after|
    requires forall k | 0 <= k < |buf| :: after[k] == if off <= k < off + |src| then src[k - off] else buf[k]
    ensures after == Splice(buf, off, src)
  {
    hide Splice;
    forall k | 0 <= k < |buf|
      ensures after[k] == Splice(buf, off, src)[k]
    {
      SpliceElement(buf, off, src, k);
    }
  }

  /** The four bytes of a uint32_t on x86. */
  function WordBytes(w: u32): (r: seq<u8>)
    ensures |r| == 4
  {
    [w % 0x100, w / 0x100 % 0x100, w / 0x1_0000 % 0x100, w / 0x100_0000]
  }

  function BytesWord(b: seq<u8>): u32
    requires |b| == 4
  {
    b[0] as int + 0x100 * b[1] as int + 0x1_0000 * b[2] as int + 0x100_0000 * b[3] as int
  }

  lemma WordRoundTrip(w: u32)
    ensures BytesWord(WordBytes(w)) == w
  {
    var h := w / 0x100;
    assert w == w % 0x100 + 0x100 * h;
    var g := h / 0x100;
    assert g == w / 0x1_0000;
    assert h == h % 0x100 + 0x100 * g;
    assert g == g % 0x100 + 0x100 * (g / 0x100);
  }

  /** ((uint32_t *)buf)[k] */
  function GetWord(s: Sector, k: nat): u32
    requires k < LBAS_PER_SECTOR
  {
    BytesWord(s[4 * k..4 * k + 4])
  }

  /** Words are stored low byte first. */
  lemma ByteOfWord(s: Sector, k: nat)
    requires k < BYTES_SECTOR
    ensures s[k] == GetWord(s, k / 4) / [1, 0x100, 0x1_0000, 0x100_0000][k % 4] % 0x100
  {
    var b := s[4 * (k / 4)..4 * (k / 4) + 4];
    assert s[k] == b[k % 4];
    BytesOf(b[0], b[1], b[2], b[3]);
  }

  lemma BytesOf(a: u8, b: u8, c: u8, d: u8)
    ensures var w := a as int + 0x100 * b as int + 0x1_0000 * c as int + 0x100_0000 * d as int;
            a == w % 0x100 && b == w / 0x100 % 0x100 && c == w / 0x1_0000 % 0x100 && d == w / 0x100_0000 % 0x100
  {
    var y: nat := c as int + 0x100 * d as int;
    var x: nat := b as int + 0x100 * y;
    var w: nat := a as int + 0x100 * x;
    Shift(a, x);
    Shift(b, y);
    Shift(c, d);
    assert w / 0x1_0000 == w / 0x100 / 0x100 == y;
    assert w / 0x100_0000 == w / 0x1_0000 / 0x100 == d;
  }

  lemma Shift(low: u8, high: nat)
    ensures var w := low as int + 0x100 * high; w / 0x100 == high && w % 0x100 == low
  {
  }

  /** ((uint32_t *)buf)[k] = w */
  function PutWord(s: Sector, k: nat, w: u32): Sector
    requires k < LBAS_PER_SECTOR
  {
    Splice(s, 4 * k, WordBytes(w))
  }

  lemma PutGetWord(s: Sector, k: nat, w: u32, j: nat)
    requires k < LBAS_PER_SECTOR && j < LBAS_PER_SECTOR
    ensures GetWord(PutWord(s, k, w), j) == if j == k then w else GetWord(s, j)
  {
    WordRoundTrip(w);
    if j != k {
      SpliceElsewhere(s, 4 * k, WordBytes(w), 4 * j, 4 * j + 4);
    }
  }

  lemma ZeroWord(k: nat)
    requires k < LBAS_PER_SECTOR
    ensures GetWord(ZeroSector(), k) == 0
  {
  }
}
