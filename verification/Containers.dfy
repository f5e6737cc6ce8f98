/** kern/utilities/queue.c and list.c: singly linked chains behind a sentinel node. */
module Containers {
  /** node_t without data_, which the queues and lists never touch. */
  class Node {
    var next: Node?

    constructor ()
      ensures next == null
    {
      next := null;
    }
  }

  ghost predicate Distinct<T>(s: seq<T>) {
    forall i, j | 0 <= i < j < |s| :: s[i] != s[j]
  }

  function Inserted<T>(s: seq<T>, k: nat, x: T): seq<T>
    requires k <= |s|
  {
    s[..k] + [x] + s[k..]
  }

  function Removed<T>(s: seq<T>, k: nat): seq<T>
    requires k < |s|
  {
    s[..k] + s[k + 1..]
  }

  lemma InsertedIs<T>(s: seq<T>, k: nat, x: T)
    requires Distinct(s) && x !in s && 1 <= k <= |s|
    ensures var r := Inserted(s, k, x);
            && Distinct(r) && |r| == |s| + 1
            && forall i | 0 <= i < |r| :: r[i] == if i < k then s[i] else if i == k then x else s[i - 1]
  {
  }

  lemma RemovedIs<T>(s: seq<T>, k: nat)
    requires Distinct(s) && 1 <= k < |s|
    ensures var r := Removed(s, k);
            && Distinct(r) && |r| == |s| - 1
            && forall i | 0 <= i < |r| :: r[i] == if i < k then s[i] else s[i + 1]
  {
  }

  lemma InsertedTail<T>(s: seq<T>, k: nat, x: T)
    requires 1 <= k <= |s|
    ensures |Inserted(s, k, x)| == |s| + 1 && Inserted(s, k, x)[0] == s[0]
    ensures Inserted(s, k, x)[1..] == Inserted(s[1..], k - 1, x)
  {
  }

  lemma RemovedLast<T>(s: seq<T>, k: nat)
    requires 1 <= k < |s|
    ensures var r := Removed(s, k);
            && |r| == |s| - 1 && r[0] == s[0]
            && r[|r| - 1] == if k == |s| - 1 then s[k - 1] else s[|s| - 1]
  {
  }

  /** The chain runs through these nodes, each once, and ends. */
  ghost predicate Chained(chain: seq<Node>)
    reads chain
  {
    && Distinct(chain)
    && (forall i, j | 0 <= i < j < |chain| && j == i + 1 :: chain[i].next == chain[j])
    && (chain != [] ==> chain[|chain| - 1].next == null)
  }

  /** removed = p->next_; p->next_ = removed->next_; removed->next_ = null, where p precedes position k. */
  method Unlink(ghost was: seq<Node>, ghost k: nat, p: Node) returns (removed: Node)
    requires Chained(was) && 1 <= k < |was| && p == was[k - 1]
    modifies was`next
    ensures removed == was[k] && removed.next == null && Chained(Removed(was, k))
  {
    RemovedIs(was, k);
    assert was[k - 1].next == was[k];
    removed := p.next;
    p.next := removed.next;
    removed.next := null;
    assert forall i | 0 <= i < |was| && i != k - 1 && i != k :: was[i] != p && was[i] != removed;
  }

  /** n->next_ = p->next_; p->next_ = n, where p precedes position k. */
  method Link(ghost was: seq<Node>, ghost k: nat, p: Node, n: Node)
    requires Chained(was) && 1 <= k <= |was| && p == was[k - 1] && n !in was
    modifies was`next, n`next
    ensures Chained(Inserted(was, k, n))
  {
    InsertedIs(was, k, n);
    assert forall i | 0 <= i < |was| && i != k - 1 :: was[i] != p;
    assert k < |was| ==> p.next == was[k];
    n.next := p.next;
    p.next := n;
    var r := Inserted(was, k, n);
    hide Distinct, Inserted;
    forall i, j | 0 <= i < j < |r| && j == i + 1
      ensures r[i].next == r[j]
    {
      if i < k - 1 {
        assert was[i].next == was[i + 1];
      } else if k < i {
        assert was[i - 1].next == was[i];
      }
    }
  }

  /** queue_t: a FIFO of nodes. The ghost chain is the sentinel followed by the queued nodes. */
  class Queue {
    const sentinel: Node
    var head: Node
    var tail: Node
    ghost var chain: seq<Node>

    ghost function Nodes(): seq<Node>
      reads this
    {
      if chain == [] then [] else chain[1..]
    }

    ghost predicate Valid()
      reads this, chain
    {
      chain != [] && chain[0] == sentinel == head && tail == chain[|chain| - 1] && Chained(chain)
    }

    /** queue_init */
    constructor ()
      ensures Valid() && Nodes() == [] && fresh(sentinel) && chain == [sentinel]
    {
      var s := new Node();
      sentinel, head, tail := s, s, s;
      chain := [s];
    }

    method IsEmpty() returns (empty: bool)
      requires Valid()
      ensures empty <==> |chain| == 1
    {
      empty := head == tail;
    }

    /** queue_push with TAIL */
    method Push(n: Node)
      requires Valid() && n !in chain
      modifies this, tail`next, n`next
      ensures Valid() && chain == old(chain) + [n]
    {
      n.next := null;
      tail.next := n;
      tail := n;
      InsertedIs(chain, |chain|, n);
      assert Inserted(chain, |chain|, n) == chain + [n];
      chain := chain + [n];
    }

    /** queue_pop: null when the queue is empty. */
    method Pop() returns (del: Node?)
      requires Valid()
      modifies this, chain`next
      ensures Valid()
      ensures |old(chain)| == 1 ==> del == null && chain == old(chain)
      ensures |old(chain)| > 1 ==> del == old(chain)[1] && chain == Removed(old(chain), 1) && del.next == null
    {
      var empty := IsEmpty();
      if empty {
        return null;
      }
      del := PopFirst();
    }

    method PopFirst() returns (del: Node)
      requires Valid() && 1 < |chain|
      modifies this, chain`next
      ensures Valid() && chain == Removed(old(chain), 1)
      ensures del == old(chain[1]) && del.next == null
    {
      RemovedLast(chain, 1);
      ghost var was := chain;
      assert chain[0].next == chain[1] && (chain[1] == tail <==> |chain| == 2);
      hide Chained, Distinct, Removed;
      if head.next == tail {
        tail := head;
      }
      chain := Removed(was, 1);
      del := Unlink(was, 1, head);
    }

    /** queue_front */
    method Front() returns (n: Node?)
      requires Valid()
      ensures n == if |chain| == 1 then null else chain[1]
    {
      if head == tail {
        return null;
      }
      n := head.next;
    }
  }

  /** list_t: positions run from 1; position 0 is the sentinel. */
  class List {
    const sentinel: Node
    var size: nat
    ghost var chain: seq<Node>

    ghost function Nodes(): seq<Node>
      reads this
    {
      if chain == [] then [] else chain[1..]
    }

    ghost predicate Valid()
      reads this, chain
    {
      chain != [] && chain[0] == sentinel && size == |chain| - 1 && Chained(chain)
    }

    /** list_init without cycle */
    constructor ()
      ensures Valid() && Nodes() == [] && fresh(sentinel) && chain == [sentinel]
    {
      var s := new Node();
      sentinel, size := s, 0;
      chain := [s];
    }

    /** list_find */
    method Find(idx: nat) returns (p: Node)
      requires Valid() && idx < |chain|
      ensures p == chain[idx]
    {
      p := sentinel;
      var left := idx;
      while left != 0
        invariant 0 <= left <= idx && p == chain[idx - left]
      {
        assert p.next == chain[idx - left + 1];
        left := left - 1;
        p := p.next;
      }
    }

    /** list_insert: the node becomes position idx. */
    method Insert(n: Node, idx: nat)
      requires Valid() && n !in chain && 1 <= idx <= |chain|
      modifies this, chain`next, n`next
      ensures Valid() && chain == Inserted(old(chain), idx, n)
    {
      var p := Find(idx - 1);
      InsertedTail(chain, idx, n);
      hide Chained, Distinct, Inserted;
      ghost var was := chain;
      size, chain := size + 1, Inserted(was, idx, n);
      Link(was, idx, p, n);
    }

    /** list_remove: the node at position idx leaves the list. */
    method Remove(idx: nat) returns (removed: Node)
      requires Valid() && 1 <= idx < |chain|
      modifies this, chain`next
      ensures Valid() && chain == Removed(old(chain), idx)
      ensures removed == old(chain[idx]) && removed.next == null
    {
      RemovedLast(chain, idx);
      var p := Find(idx - 1);
      hide Chained, Distinct, Removed;
      ghost var was := chain;
      size, chain := size - 1, Removed(was, idx);
      removed := Unlink(was, idx, p);
    }
  }
}
