/** kern/utilities/curdir.c: the stored working directory and parent/child path splitting. */
module Curdir {
  import opened Bytes
  import opened CStrings

  const MAX_OPEN_DIR: nat := 256
  const MAX_CURDIR_BUFF: nat := 4096

  /** The string in slot i of the buffer. */
  function Piece(buf: seq<u8>, i: nat): seq<u8>
    requires |buf| == MAX_CURDIR_BUFF && i < MAX_OPEN_DIR
  {
    CStr(buf[DIRITEM_NAME_LEN * i..DIRITEM_NAME_LEN * i + DIRITEM_NAME_LEN])
  }

  /** The first i slots put together. */
  function JoinTo(buf: seq<u8>, i: nat): seq<u8>
    requires |buf| == MAX_CURDIR_BUFF && i <= MAX_OPEN_DIR
  {
    if i == 0 then [] else JoinTo(buf, i - 1) + Piece(buf, i - 1)
  }

  /** The first empty slot from i on. */
  function FirstEmpty(buf: seq<u8>, i: nat): (r: nat)
    requires |buf| == MAX_CURDIR_BUFF && i <= MAX_OPEN_DIR
    ensures i <= r <= MAX_OPEN_DIR
    decreases MAX_OPEN_DIR - i
  {
    if i == MAX_OPEN_DIR || buf[DIRITEM_NAME_LEN * i] == 0 then i else FirstEmpty(buf, i + 1)
  }

  /** The path a buffer stores. */
  function StoredPath(buf: seq<u8>): seq<u8>
    requires |buf| == MAX_CURDIR_BUFF
  {
    JoinTo(buf, FirstEmpty(buf, 0))
  }

  /**
    From every position of the path a '/' follows within 14 bytes: the path ends in '/' and its
    components fit a slot.
   */
  predicate Fits(path: seq<u8>) {
    0 !in path && forall j | 0 <= j < |path| :: SlashSoon(path, j)
  }

  predicate SlashSoon(path: seq<u8>, j: nat) {
    exists k :: j <= k < |path| && k <= j + 14 && path[k] == SLASH
  }

  /** How many '/'-terminated pieces a path has. */
  function Pieces(path: seq<u8>): (r: nat)
    ensures r <= |path|
  {
    if path == [] then 0 else Pieces(path[..|path| - 1]) + if path[|path| - 1] == SLASH then 1 else 0
  }

  lemma {:induction false} PiecesSplit(a: seq<u8>, b: seq<u8>)
    ensures Pieces(a + b) == Pieces(a) + Pieces(b)
  {
    if b == [] {
      assert a + b == a;
    } else {
      assert (a + b)[..|a + b| - 1] == a + b[..|b| - 1];
      PiecesSplit(a, b[..|b| - 1]);
    }
  }

  lemma {:induction false} NoSlashNoPieces(a: seq<u8>)
    requires SLASH !in a
    ensures Pieces(a) == 0
  {
    if a != [] {
      NoSlashNoPieces(a[..|a| - 1]);
    }
  }

  lemma {:induction false} FirstEmptyIs(buf: seq<u8>, i: nat, n: nat)
    requires |buf| == MAX_CURDIR_BUFF && i <= n <= MAX_OPEN_DIR
    requires forall k | i <= k < n :: buf[DIRITEM_NAME_LEN * k] != 0
    requires n == MAX_OPEN_DIR || buf[DIRITEM_NAME_LEN * n] == 0
    ensures FirstEmpty(buf, i) == n
    decreases n - i
  {
    if i < n {
      FirstEmptyIs(buf, i + 1, n);
    }
  }

  class CurrentDirectory {
    const dir: array<u8>

    /** Every slot holds a terminated string. */
    ghost predicate Valid()
      reads dir
    {
      && dir.Length == MAX_CURDIR_BUFF
      && forall i | 0 <= i < MAX_OPEN_DIR :: |Piece(dir[..], i)| < DIRITEM_NAME_LEN
    }

    ghost function Path(): seq<u8>
      reads dir
      requires Valid()
    {
      StoredPath(dir[..])
    }

    /** curdir_init over a fresh buffer. */
    constructor ()
      ensures Valid() && Path() == [] && fresh(dir)
    {
      dir := new u8[MAX_CURDIR_BUFF](_ => 0);
      new;
      assert forall i | 0 <= i < MAX_OPEN_DIR :: Piece(dir[..], i) == [];
    }

    /** worker and its strlen in curdir_get. */
    method Slot(i: nat) returns (worker: seq<u8>)
      requires dir.Length == MAX_CURDIR_BUFF && i < MAX_OPEN_DIR
      ensures worker == Piece(dir[..], i)
    {
      worker := CStr(dir[DIRITEM_NAME_LEN * i..DIRITEM_NAME_LEN * i + DIRITEM_NAME_LEN]);
    }

    /** curdir_get: -1, and a zeroed buffer, exactly when the path is longer than pathlen. */
    method Get(path: array<u8>, pathlen: nat) returns (r: int)
      requires Valid() && path != dir
      requires pathlen <= path.Length && (|Path()| == pathlen ==> pathlen < path.Length)
      modifies path
      ensures r == if |Path()| <= pathlen then 0 else -1
      ensures r == 0 ==> |Path()| < path.Length && path[..|Path()|] == Path() && path[|Path()|] == 0
      ensures r == -1 ==> forall k | 0 <= k < pathlen :: path[k] == 0
    {
      hide CStr, JoinTo, Piece, Splice, FirstEmpty;
      ghost var buf := dir[..];
      var acc, i := 0, 0;
      JoinNone(buf);
      while i < MAX_OPEN_DIR
        invariant 0 <= i <= FirstEmpty(buf, 0) && FirstEmpty(buf, i) == FirstEmpty(buf, 0)
        invariant acc == |JoinTo(buf, i)| <= pathlen
        invariant path[..acc] == JoinTo(buf, i)
        invariant dir[..] == buf
      {
        SlotStep(buf, i);
        if dir[DIRITEM_NAME_LEN * i] == 0 {
          break;
        }
        var worker := Slot(i);
        JoinGrows(buf, i + 1, FirstEmpty(buf, 0));
        if acc + |worker| > pathlen {
          BZero(path, pathlen);
          return -1;
        }
        SplicePrefix(path[..], acc, worker);
        MemMove(path, acc, worker);
        acc, i := acc + |worker|, i + 1;
      }
      path[acc] := 0;
      r := 0;
    }

    /** curdir_set: 0 exactly when the path has fewer than 256 pieces, and then it is stored whole. */
    method Set(path: seq<u8>) returns (r: int)
      requires dir.Length == MAX_CURDIR_BUFF && Fits(path)
      modifies dir
      ensures Valid()
      ensures r == if Pieces(path) < MAX_OPEN_DIR then 0 else -1
      ensures r == 0 ==> Path() == path
      ensures r == -1 ==> Path() <= path && Pieces(Path()) == MAX_OPEN_DIR
    {
      hide Fits, Stored, Splice, Pieces, Piece;
      FitsNoNul(path);
      BZero(dir, dir.Length);
      var i, j := 0, 0;
      StoredNothing(dir[..], path);
      while i < MAX_OPEN_DIR && j < |path|
        invariant 0 <= i <= MAX_OPEN_DIR && 0 <= j <= |path|
        invariant Stored(dir[..], path, i, j)
      {
        ghost var before, j0 := dir[..], j;
        j := StorePiece(path, i, j);
        StoredNext(before, dir[..], path, i, j0, j);
        i := i + 1;
      }
      StoredAll(dir[..], path, i, j);
      r := if i == MAX_OPEN_DIR then -1 else 0;
    }

    /** One turn of curdir_set's outer loop: the piece of the path at j, its '/' and a NUL go into slot i. */
    method StorePiece(path: seq<u8>, i: nat, j: nat) returns (next: nat)
      requires dir.Length == MAX_CURDIR_BUFF && Fits(path)
      requires i < MAX_OPEN_DIR && j < |path|
      modifies dir
      ensures j < next <= |path| && next <= j + 15
      ensures path[next - 1] == SLASH && SLASH !in path[j..next - 1]
      ensures dir[..] == Splice(old(dir[..]), DIRITEM_NAME_LEN * i, path[j..next] + [0])
    {
      ghost var before := dir[..];
      ghost var k := NextSlash(path, j);
      hide Fits, Splice;
      var base := DIRITEM_NAME_LEN * i;
      next := j;
      while path[next] != SLASH
        invariant j <= next <= k && SLASH !in path[j..next]
        invariant forall m | 0 <= m < dir.Length ::
                    dir[m] == if base <= m < base + (next - j) then path[j + (m - base)] else before[m]
        decreases k - next
      {
        dir[base + (next - j)] := path[next];
        next := next + 1;
      }
      dir[base + (next - j)] := SLASH;
      next := next + 1;
      dir[base + (next - j)] := 0;
      StoredIsSplice(before, dir[..], base, path, j, next);
    }
  }

  lemma JoinNone(buf: seq<u8>)
    requires |buf| == MAX_CURDIR_BUFF
    ensures JoinTo(buf, 0) == []
  {
  }

  lemma FitsNoNul(path: seq<u8>)
    requires Fits(path)
    ensures 0 !in path
  {
    hide SlashSoon;
  }

  /** What the loop of curdir_get meets in slot i. */
  lemma SlotStep(buf: seq<u8>, i: nat)
    requires |buf| == MAX_CURDIR_BUFF && i < MAX_OPEN_DIR
    ensures FirstEmpty(buf, i) == if buf[DIRITEM_NAME_LEN * i] == 0 then i else FirstEmpty(buf, i + 1)
    ensures JoinTo(buf, i + 1) == JoinTo(buf, i) + Piece(buf, i)
  {
  }

  lemma StoredIsSplice(before: seq<u8>, after: seq<u8>, base: nat, path: seq<u8>, j: nat, next: nat)
    requires j < next <= |path| && |before| == |after| && base + (next - j) + 1 <= |before|
    requires forall m | 0 <= m < |before| ::
               after[m] == if base <= m < base + (next - j) then path[j + (m - base)]
                           else if m == base + (next - j) then 0 else before[m]
    ensures after == Splice(before, base, path[j..next] + [0])
  {
    SpliceIs(before, base, path[j..next] + [0], after);
  }

  lemma NextSlash(path: seq<u8>, j: nat) returns (k: nat)
    requires Fits(path) && j < |path|
    ensures j <= k < |path| && k <= j + 14 && path[k] == SLASH
  {
    assert SlashSoon(path, j);
    var m :| j <= m < |path| && m <= j + 14 && path[m] == SLASH;
    k := m;
  }

  /** i slots hold the first j bytes of the path, the others are empty. */
  ghost predicate Stored(buf: seq<u8>, path: seq<u8>, i: nat, j: nat) {
    && |buf| == MAX_CURDIR_BUFF && i <= MAX_OPEN_DIR && j <= |path|
    && path[..j] == JoinTo(buf, i) && Pieces(path[..j]) == i
    && (forall k | 0 <= k < i :: buf[DIRITEM_NAME_LEN * k] != 0 && |Piece(buf, k)| < DIRITEM_NAME_LEN)
    && (forall k | DIRITEM_NAME_LEN * i <= k < |buf| :: buf[k] == 0)
  }

  lemma StoredNothing(buf: seq<u8>, path: seq<u8>)
    requires |buf| == MAX_CURDIR_BUFF && forall k | 0 <= k < |buf| :: buf[k] == 0
    ensures Stored(buf, path, 0, 0)
  {
  }

  /** Storing a piece in slot i leaves the slots before it alone. */
  lemma SlotsKept(a: seq<u8>, b: seq<u8>, i: nat, src: seq<u8>, m: nat)
    requires |a| == MAX_CURDIR_BUFF && m < i < MAX_OPEN_DIR && |src| <= DIRITEM_NAME_LEN
    requires b == Splice(a, DIRITEM_NAME_LEN * i, src)
    ensures b[DIRITEM_NAME_LEN * m] == a[DIRITEM_NAME_LEN * m] && Piece(b, m) == Piece(a, m)
  {
    hide Splice, CStr;
    SpliceElsewhere(a, DIRITEM_NAME_LEN * i, src, DIRITEM_NAME_LEN * m, DIRITEM_NAME_LEN * m + DIRITEM_NAME_LEN);
    SpliceElement(a, DIRITEM_NAME_LEN * i, src, DIRITEM_NAME_LEN * m);
  }

  lemma SlotStored(a: seq<u8>, b: seq<u8>, i: nat, piece: seq<u8>)
    requires |a| == MAX_CURDIR_BUFF && i < MAX_OPEN_DIR && 0 < |piece| < DIRITEM_NAME_LEN && 0 !in piece
    requires b == Splice(a, DIRITEM_NAME_LEN * i, piece + [0])
    requires forall k | DIRITEM_NAME_LEN * i <= k < |a| :: a[k] == 0
    ensures Piece(b, i) == piece && b[DIRITEM_NAME_LEN * i] != 0
    ensures forall k | DIRITEM_NAME_LEN * (i + 1) <= k < |b| :: b[k] == 0
  {
    hide Splice, CStr;
    var base := DIRITEM_NAME_LEN * i;
    forall k | 0 <= k < |b|
      ensures b[k] == if base <= k < base + |piece| + 1 then (piece + [0])[k - base] else a[k]
    {
      SpliceElement(a, base, piece + [0], k);
    }
    var slot := b[base..base + DIRITEM_NAME_LEN];
    forall k | 0 <= k < |piece|
      ensures slot[k] == piece[k]
    {
      assert slot[k] == b[base + k];
    }
    assert slot[..|piece|] == piece;
    assert slot[|piece|] == b[base + |piece|] == 0;
    CStrOf(piece, slot);
  }

  lemma StoredNext(a: seq<u8>, b: seq<u8>, path: seq<u8>, i: nat, j: nat, next: nat)
    requires Stored(a, path, i, j) && i < MAX_OPEN_DIR && 0 !in path
    requires j < next <= |path| && next <= j + 15
    requires path[next - 1] == SLASH && SLASH !in path[j..next - 1]
    requires b == Splice(a, DIRITEM_NAME_LEN * i, path[j..next] + [0])
    ensures Stored(b, path, i + 1, next)
  {
    hide CStr, Pieces, Splice, Piece;
    var piece := path[j..next];
    forall m: nat | m < i
      ensures b[DIRITEM_NAME_LEN * m] == a[DIRITEM_NAME_LEN * m] && Piece(b, m) == Piece(a, m)
    {
      SlotsKept(a, b, i, piece + [0], m);
    }
    SlotStored(a, b, i, piece);
    JoinSame(a, b, i);
    assert path[..next] == path[..j] + piece;
    OneMorePiece(path, j, next);
  }

  lemma OneMorePiece(path: seq<u8>, j: nat, next: nat)
    requires j < next <= |path| && path[next - 1] == SLASH && SLASH !in path[j..next - 1]
    ensures Pieces(path[..next]) == Pieces(path[..j]) + 1
  {
    assert path[..next] == path[..j] + path[j..next];
    PiecesSplit(path[..j], path[j..next]);
    assert path[j..next] == path[j..next - 1] + [SLASH];
    PiecesSplit(path[j..next - 1], [SLASH]);
    NoSlashNoPieces(path[j..next - 1]);
  }

  lemma {:induction false} JoinSame(a: seq<u8>, b: seq<u8>, i: nat)
    requires |a| == |b| == MAX_CURDIR_BUFF && i <= MAX_OPEN_DIR
    requires forall m | 0 <= m < i :: Piece(b, m) == Piece(a, m)
    ensures JoinTo(b, i) == JoinTo(a, i)
  {
    if i != 0 {
      JoinSame(a, b, i - 1);
    }
  }

  lemma StoredAll(buf: seq<u8>, path: seq<u8>, i: nat, j: nat)
    requires Stored(buf, path, i, j) && (i == MAX_OPEN_DIR || j == |path|)
    requires 0 !in path
    ensures forall k | 0 <= k < MAX_OPEN_DIR :: |Piece(buf, k)| < DIRITEM_NAME_LEN
    ensures StoredPath(buf) == path[..j] && Pieces(path[..j]) == i
    ensures Pieces(path) < MAX_OPEN_DIR <==> i < MAX_OPEN_DIR
    ensures i < MAX_OPEN_DIR ==> path[..j] == path
  {
    hide CStr, Piece, JoinTo, Pieces, FirstEmpty;
    EmptyPieces(buf, i);
    FirstEmptyIs(buf, 0, i);
    assert path[..j] + path[j..] == path;
    PiecesSplit(path[..j], path[j..]);
    if j == |path| {
      assert path[..j] == path && path[j..] == [];
      NoSlashNoPieces(path[j..]);
    }
  }

  lemma EmptyPieces(buf: seq<u8>, i: nat)
    requires |buf| == MAX_CURDIR_BUFF && forall k | DIRITEM_NAME_LEN * i <= k < |buf| :: buf[k] == 0
    ensures forall k | i <= k < MAX_OPEN_DIR :: Piece(buf, k) == []
  {
    forall k | i <= k < MAX_OPEN_DIR
      ensures Piece(buf, k) == []
    {
      assert buf[DIRITEM_NAME_LEN * k..DIRITEM_NAME_LEN * k + DIRITEM_NAME_LEN][0] == buf[DIRITEM_NAME_LEN * k];
    }
  }

  lemma {:induction false} JoinGrows(buf: seq<u8>, i: nat, n: nat)
    requires |buf| == MAX_CURDIR_BUFF && i <= n <= MAX_OPEN_DIR
    ensures JoinTo(buf, i) <= JoinTo(buf, n)
    decreases n - i
  {
    if i < n {
      JoinGrows(buf, i, n - 1);
    }
  }

  /** curdir_copy: the copy stores the same path. */
  method CurdirCopy(dst: CurrentDirectory, src: CurrentDirectory)
    requires src.Valid() && dst.dir.Length == MAX_CURDIR_BUFF && dst.dir != src.dir
    modifies dst.dir
    ensures dst.Valid() && dst.Path() == src.Path()
  {
    ghost var before := dst.dir[..];
    MemMove(dst.dir, 0, src.dir[..]);
    assert dst.dir[..] == src.dir[..];
  }

  /** The last '/' of a path, not counting a final one. */
  function LastSeparator(path: seq<u8>): (r: nat)
    requires 2 <= |path| && path[0] == SLASH
    ensures r < |path| - 1 && path[r] == SLASH && SLASH !in path[r + 1..|path| - 1]
  {
    SeparatorBelow(path, |path| - 2)
  }

  function SeparatorBelow(path: seq<u8>, i: nat): (r: nat)
    requires i < |path| - 1 && path[0] == SLASH
    requires SLASH !in path[i + 1..|path| - 1]
    ensures r < |path| - 1 && path[r] == SLASH && SLASH !in path[r + 1..|path| - 1]
  {
    if path[i] == SLASH then i
    else
      assert path[i..|path| - 1] == [path[i]] + path[i + 1..|path| - 1];
      SeparatorBelow(path, i - 1)
  }

  function ParentPath(path: seq<u8>): seq<u8>
    requires 1 <= |path| && path[0] == SLASH
  {
    if |path| == 1 then path else path[..LastSeparator(path) + 1]
  }

  function ChildName(path: seq<u8>): seq<u8>
    requires 1 <= |path| && path[0] == SLASH
  {
    if |path| == 1 then []
    else
      var rest := path[LastSeparator(path) + 1..];
      if rest[|rest| - 1] == SLASH then rest[..|rest| - 1] else rest
  }

  /** A '/'-terminated parent and a '/'-free child that rejoin to the path up to one trailing '/'. */
  lemma ParentChildRejoin(path: seq<u8>)
    requires 1 <= |path| && path[0] == SLASH
    ensures var p := ParentPath(path);
            && 1 <= |p| && p[0] == SLASH && p[|p| - 1] == SLASH
            && SLASH !in ChildName(path)
            && (path == p + ChildName(path) || path == p + ChildName(path) + [SLASH])
            && (|path| == 1 || |p| < |path|)
  {
    if 1 < |path| {
      hide LastSeparator;
      RejoinAt(path, LastSeparator(path));
    }
  }

  lemma RejoinAt(path: seq<u8>, s: nat)
    requires s < |path| - 1 && path[s] == SLASH && SLASH !in path[s + 1..|path| - 1]
    ensures var p, rest, mid := path[..s + 1], path[s + 1..], path[s + 1..|path| - 1];
            && p[|p| - 1] == SLASH && p[0] == path[0]
            && if rest[|rest| - 1] == SLASH then rest[..|rest| - 1] == mid && path == p + mid + [SLASH]
               else SLASH !in rest && path == p + rest
  {
    var rest, mid, last := path[s + 1..], path[s + 1..|path| - 1], path[|path| - 1];
    assert path == path[..s + 1] + rest;
    assert rest == mid + [last];
    assert path == path[..s + 1] + mid + [last];
  }

  /** The k-th ancestor. */
  function Ancestor(path: seq<u8>, k: nat): (r: seq<u8>)
    requires 1 <= |path| && path[0] == SLASH
    ensures 1 <= |r| && r[0] == SLASH
  {
    if k == 0 then path
    else
      var q := Ancestor(path, k - 1);
      ParentChildRejoin(q);
      ParentPath(q)
  }

  /** Going to the parent over and over ends at "/". */
  lemma {:induction false} AncestorShrinks(path: seq<u8>, k: nat)
    requires 1 <= |path| && path[0] == SLASH
    ensures Ancestor(path, k) == [SLASH] || |Ancestor(path, k)| + k <= |path|
  {
    if k != 0 {
      AncestorShrinks(path, k - 1);
      ParentChildRejoin(Ancestor(path, k - 1));
    }
  }

  lemma ReachesRoot(path: seq<u8>)
    requires 1 <= |path| && path[0] == SLASH
    ensures Ancestor(path, |path|) == [SLASH]
  {
    AncestorShrinks(path, |path|);
  }

  lemma SeparatorIs(path: seq<u8>, r: nat)
    requires 2 <= |path| && path[0] == SLASH
    requires r < |path| - 1 && path[r] == SLASH
    requires forall k | r < k < |path| - 1 :: path[k] != SLASH
    ensures r == LastSeparator(path)
  {
    hide LastSeparator;
    var s := LastSeparator(path);
    assert forall k | s < k < |path| - 1 :: path[s + 1..|path| - 1][k - s - 1] == path[k];
  }

  /** The backwards loop of get_parent_child_filename; -1 only for the one-byte path. */
  method FindSeparator(path: array<u8>, size: nat) returns (separator: int)
    requires 1 <= size <= path.Length && path[0] == SLASH
    ensures separator == if size == 1 then -1 else LastSeparator(path[..size])
  {
    hide LastSeparator;
    var i := size - 1;
    while true
      invariant 0 <= i < size
      invariant forall k | i < k < size - 1 :: path[k] != SLASH
      decreases i
    {
      if path[i] == SLASH && i != size - 1 {
        SeparatorIs(path[..size], i);
        return i;
      }
      if i == 0 {
        return -1;
      }
      i := i - 1;
    }
  }

  /** memmove of the last component into `cur`, without its trailing '/'. */
  method TakeChild(cur: array<u8>, rest: seq<u8>)
    requires 1 <= |rest| < cur.Length && 0 !in rest
    requires forall k | 0 <= k < cur.Length :: cur[k] == 0
    modifies cur
    ensures CStr(cur[..]) == if rest[|rest| - 1] == SLASH then rest[..|rest| - 1] else rest
  {
    hide CStr, Splice;
    ghost var zeros := cur[..];
    MemMove(cur, 0, rest);
    forall k | 0 <= k < |zeros|
      ensures cur[..][k] == if k < |rest| then rest[k] else 0
    {
      SpliceElement(zeros, 0, rest, k);
    }
    assert cur[..][..|rest|] == rest;
    CStrOf(rest, cur[..]);
    var length := StrLen(cur);
    if cur[length - 1] == SLASH {
      cur[length - 1] := 0;
      assert cur[..][..length - 1] == rest[..length - 1];
      CStrOf(rest[..length - 1], cur[..]);
    }
  }

  /** Cutting a C string short. */
  method Truncate(path: array<u8>, at: nat)
    requires at < |CStr(path[..])| <= path.Length
    modifies path
    ensures CStr(path[..]) == old(CStr(path[..]))[..at]
  {
    ghost var p := CStr(path[..]);
    hide CStr;
    path[at] := 0;
    assert path[..][..at] == p[..at];
    CStrOf(p[..at], path[..]);
  }

  /** The branch for "/": both buffers get fixed contents. */
  method SetRoot(path: array<u8>, cur: array?<u8>)
    requires 2 <= path.Length && (cur != null ==> cur != path && 1 <= cur.Length)
    modifies path, cur
    ensures CStr(path[..]) == [SLASH]
    ensures cur != null ==> CStr(cur[..]) == []
  {
    hide CStr;
    path[0], path[1] := SLASH, 0;
    assert path[..][..1] == [SLASH];
    CStrOf([SLASH], path[..]);
    if cur != null {
      cur[0] := 0;
      assert cur[..][..0] == [];
      CStrOf([], cur[..]);
    }
  }

  /**
    get_parent_child_filename: the buffer `path` becomes the parent and `cur`, if given and
    zeroed by the caller, receives the child.
   */
  method ParentChild(path: array<u8>, cur: array?<u8>)
    requires 2 <= path.Length && |CStr(path[..])| < path.Length && path[0] == SLASH
    requires cur != null ==>
      cur != path && |CStr(path[..])| <= cur.Length && forall k | 0 <= k < cur.Length :: cur[k] == 0
    modifies path, cur
    ensures |CStr(old(path[..]))| >= 1 && CStr(old(path[..]))[0] == SLASH
    ensures CStr(path[..]) == ParentPath(CStr(old(path[..])))
    ensures cur != null ==> CStr(cur[..]) == ChildName(CStr(old(path[..])))
  {
    hide CStr, LastSeparator, ParentPath, ChildName;
    ghost var p := CStr(path[..]);
    var size := StrLen(path);
    StartsWithSlash(path[..]);
    assert p == path[..][..size] == path[..size];
    var separator := FindSeparator(path, size);
    ParentAndChild(p);
    if separator == -1 {
      SetRoot(path, cur);
    } else {
      if cur != null {
        var rest := path[separator + 1..size];
        assert rest == p[separator + 1..];
        TakeChild(cur, rest);
      }
      Truncate(path, separator + 1);
    }
  }

  lemma StartsWithSlash(s: seq<u8>)
    requires s != [] && s[0] == SLASH
    ensures CStr(s) != [] && CStr(s)[0] == SLASH
  {
  }

  lemma ParentAndChild(p: seq<u8>)
    requires p != [] && p[0] == SLASH
    ensures |p| == 1 ==> ParentPath(p) == [SLASH] && ChildName(p) == []
    ensures 2 <= |p| ==>
      var rest := p[LastSeparator(p) + 1..];
      && ParentPath(p) == p[..LastSeparator(p) + 1]
      && ChildName(p) == if rest[|rest| - 1] == SLASH then rest[..|rest| - 1] else rest
  {
    hide LastSeparator;
  }
}
