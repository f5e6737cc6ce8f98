/** user/lib.c: NUL-terminated strings inside byte buffers. */
module CStrings {
  import opened Bytes

  /** DIRITEM_NAME_LEN */
  const DIRITEM_NAME_LEN: nat := 16
  /** DIR_SEPARATOR, DIRNAME_ROOT_ASCII */
  const SLASH: u8 := 47

  /** The C string at the start of a buffer: the bytes before the first NUL. */
  function CStr(s: seq<u8>): (r: seq<u8>)
    ensures |r| <= |s| && r == s[..|r|] && 0 !in r
    ensures |r| < |s| ==> s[|r|] == 0
  {
    if s == [] || s[0] == 0 then [] else [s[0]] + CStr(s[1..])
  }

  /** A buffer that starts with the bytes of s and a NUL holds the C string s. */
  lemma {:induction false} CStrOf(s: seq<u8>, buf: seq<u8>)
    requires 0 !in s && |s| < |buf| && buf[..|s|] == s && buf[|s|] == 0
    ensures CStr(buf) == s
  {
    if s != [] {
      assert buf[0] == s[0];
      CStrOf(s[1..], buf[1..]);
    }
  }

  /** strlen */
  method StrLen(buf: array<u8>) returns (len: nat)
    requires |CStr(buf[..])| < buf.Length
    ensures len == |CStr(buf[..])|
  {
    len := 0;
    while buf[len] != 0
      invariant 0 <= len <= |CStr(buf[..])|
      invariant len < |CStr(buf[..])| ==> buf[len] == CStr(buf[..])[len] != 0
      decreases |CStr(buf[..])| - len
    {
      len := len + 1;
    }
  }

  /** memmove(dst + off, src, |src|) between buffers. */
  method MemMove(dst: array<u8>, off: nat, src: seq<u8>)
    requires off + |src| <= dst.Length
    modifies dst
    ensures dst[..] == Splice(old(dst[..]), off, src)
  {
    ghost var before := dst[..];
    forall k | 0 <= k < |src| {
      dst[off + k] := src[k];
    }
    SpliceIs(before, off, src, dst[..]);
  }

  /** bzero(buf, len) */
  method BZero(buf: array<u8>, len: nat)
    requires len <= buf.Length
    modifies buf
    ensures forall k | 0 <= k < buf.Length :: buf[k] == if k < len then 0 else old(buf[k])
  {
    forall k | 0 <= k < len {
      buf[k] := 0;
    }
  }
}
