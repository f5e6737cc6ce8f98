/** kern/utilities/bitmap.c: a packed bitmap with a next-fit cursor. */
module Bitmaps {
  import opened Bytes
  import opened Wrappers

  function Mask(k: nat): bv8
    requires k < 8
  {
    (1 as bv8) << k
  }

  function ToBits(b: u8): bv8 { b as bv8 }

  function FromBits(b: bv8): u8 { b as int }

  predicate HasBit(b: bv8, k: nat)
    requires k < 8
  {
    b & Mask(k) != 0
  }

  lemma BitsRoundTrip(b: bv8)
    ensures ToBits(FromBits(b)) == b
  {
  }

  lemma MaskSets(b: bv8, k: nat, j: nat)
    requires k < 8 && j < 8
    ensures HasBit(b | Mask(k), j) <==> (j == k || HasBit(b, j))
  {
  }

  lemma MaskClears(b: bv8, k: nat, j: nat)
    requires k < 8 && j < 8
    ensures HasBit(b & !Mask(k), j) <==> (j != k && HasBit(b, j))
  {
  }

  /** The byte written back by bitmap_set (on) or bitmap_clear (!on). */
  function ByteWith(b: u8, k: nat, on: bool): u8
    requires k < 8
  {
    FromBits(if on then ToBits(b) | Mask(k) else ToBits(b) & !Mask(k))
  }

  lemma ByteWithEffect(b: u8, k: nat, on: bool, j: nat)
    requires k < 8 && j < 8
    ensures HasBit(ToBits(ByteWith(b, k, on)), j) == if j == k then on else HasBit(ToBits(b), j)
  {
    hide HasBit, Mask, FromBits, ToBits;
    BitsRoundTrip(ToBits(b) | Mask(k));
    BitsRoundTrip(ToBits(b) & !Mask(k));
    MaskSets(ToBits(b), k, j);
    MaskClears(ToBits(b), k, j);
  }

  /** Bit k of a packed buffer; false past its end. */
  predicate Bit(bytes: seq<u8>, k: nat) {
    k / 8 < |bytes| && HasBit(ToBits(bytes[k / 8]), k % 8)
  }

  /** The buffer after bit k is set (on) or cleared. */
  function WithBit(bytes: seq<u8>, k: nat, on: bool): (r: seq<u8>)
    requires k / 8 < |bytes|
    ensures |r| == |bytes|
  {
    bytes[k / 8 := ByteWith(bytes[k / 8], k % 8, on)]
  }

  /** Bits count from the low end of their byte. */
  lemma BitFromLowEnd(k: nat)
    requires k < 8
    ensures WithBit([0], k, true) == [[1, 2, 4, 8, 16, 32, 64, 128][k]]
  {
    match k
    case 0 => assert (0 as bv8) | 1 == 1;
    case 1 => assert (0 as bv8) | 2 == 2;
    case 2 => assert (0 as bv8) | 4 == 4;
    case 3 => assert (0 as bv8) | 8 == 8;
    case 4 => assert (0 as bv8) | 16 == 16;
    case 5 => assert (0 as bv8) | 32 == 32;
    case 6 => assert (0 as bv8) | 64 == 64;
    case _ => assert (0 as bv8) | 128 == 128;
  }

  /** Setting or clearing one packed bit changes that bit and no other. */
  lemma WithBitEffect(bytes: seq<u8>, k: nat, on: bool)
    requires k / 8 < |bytes|
    ensures forall j: nat :: Bit(WithBit(bytes, k, on), j) == if j == k then on else Bit(bytes, j)
  {
    hide HasBit, ByteWith, ToBits;
    forall j: nat
      ensures Bit(WithBit(bytes, k, on), j) == if j == k then on else Bit(bytes, j)
    {
      if j / 8 == k / 8 {
        ByteWithEffect(bytes[k / 8], k % 8, on, j % 8);
      }
    }
  }

  /** How many steps a cursor at `from` takes to reach `to` on a ring of len positions. */
  function Distance(from: nat, to: nat, len: nat): nat
    requires from < len && to < len
  {
    if from <= to then to - from else to + len - from
  }

  /** bitmap_scan_empty's promise: bit r is the first clear one met from the cursor on. */
  ghost predicate FirstClear(bytes: seq<u8>, len: nat, cursor: nat, r: nat)
    requires cursor < len
  {
    && r < len
    && !Bit(bytes, r)
    && forall k | 0 <= k < len && !Bit(bytes, k) :: Distance(cursor, r, len) <= Distance(cursor, k, len)
  }

  lemma RingStep(bit: nat, len: nat)
    requires bit < len
    ensures (bit + 1) % len == if bit + 1 == len then 0 else bit + 1
  {
  }

  predicate AllSet(bytes: seq<u8>, len: nat) {
    forall k | 0 <= k < len :: Bit(bytes, k)
  }

  class Bitmap {
    const len: nat
    const buff: array<u8>
    var prevFree: nat

    predicate Valid()
      reads this
    {
      len <= 8 * buff.Length && prevFree < len
    }

    /** bitmap_init over a fresh buffer of `size` bytes. */
    constructor (len: nat, size: nat)
      requires 0 < len <= 8 * size
      ensures Valid() && fresh(buff)
      ensures this.len == len && buff.Length == size && prevFree == 0
      ensures buff[..] == seq(size, _ => 0)
    {
      this.len := len;
      buff := new u8[size](_ => 0);
      prevFree := 0;
    }

    /** bitmap_init over the buffer this bitmap already has. */
    method Reset()
      requires Valid() && 0 < len
      modifies this, buff
      ensures Valid() && prevFree == 0
      ensures buff[..] == seq(buff.Length, _ => 0)
    {
      forall i | 0 <= i < buff.Length {
        buff[i] := 0;
      }
      prevFree := 0;
    }

    method Test(idx: nat) returns (on: bool)
      requires Valid() && idx < len
      ensures on == Bit(buff[..], idx)
    {
      on := ToBits(buff[idx / 8]) & Mask(idx % 8) != 0;
    }

    method Set(idx: nat)
      requires Valid() && idx < len
      modifies buff
      ensures buff[..] == WithBit(old(buff[..]), idx, true)
    {
      buff[idx / 8] := FromBits(ToBits(buff[idx / 8]) | Mask(idx % 8));
    }

    method Clear(idx: nat)
      requires Valid() && idx < len
      modifies buff
      ensures buff[..] == WithBit(old(buff[..]), idx, false)
    {
      buff[idx / 8] := FromBits(ToBits(buff[idx / 8]) & !Mask(idx % 8));
    }

    /** None is the source's panic "no more free bits". */
    method ScanEmpty() returns (r: Option<nat>)
      requires Valid()
      modifies this`prevFree
      ensures Valid()
      ensures r.None? <==> AllSet(buff[..], len)
      ensures r.None? ==> prevFree == old(prevFree)
      ensures r.Some? ==> FirstClear(buff[..], len, old(prevFree), r.value)
      ensures r.Some? ==> prevFree == (r.value + 1) % len
    {
      var bit, i := prevFree, 0;
      while i < len
        invariant 0 <= i <= len
        invariant bit == if prevFree + i < len then prevFree + i else prevFree + i - len
        invariant i < len ==> bit < len
        invariant prevFree == old(prevFree)
        invariant forall k | 0 <= k < len && Distance(prevFree, k, len) < i :: Bit(buff[..], k)
      {
        hide Bit;
        RingStep(bit, len);
        var isSet := Test(bit);
        if !isSet {
          prevFree := (bit + 1) % len;
          return Some(bit);
        }
        bit := (bit + 1) % len;
        i := i + 1;
      }
      r := None;
    }
  }
}
