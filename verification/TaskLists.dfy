/** kern/sched/tasks.c: the two queues and the two lists that the task nodes move between. */
module TaskLists {
  import opened Containers

  ghost predicate Apart(a: seq<Node>, b: seq<Node>) {
    forall i, j | 0 <= i < |a| && 0 <= j < |b| :: a[i] != b[j]
  }

  ghost function Members(a: seq<Node>): set<object> {
    set n | n in a
  }

  /** The tasks in the four, in order. */
  datatype Queued = Queued(ready: seq<Node>, running: seq<Node>, sleeping: seq<Node>, expired: seq<Node>)

  /** __queue_ready, __queue_running, __list_sleeping, __list_expired: four chains without a common node. */
  class FourLists {
    const ready: Queue
    const running: Queue
    const sleeping: List
    const expired: List

    ghost predicate Linked()
      reads this, ready, ready.chain, running, running.chain, sleeping, sleeping.chain, expired, expired.chain
    {
      && ready != running && sleeping != expired
      && ready.Valid() && running.Valid() && sleeping.Valid() && expired.Valid()
      && Apart(ready.chain, running.chain) && Apart(ready.chain, sleeping.chain) && Apart(ready.chain, expired.chain)
      && Apart(running.chain, sleeping.chain) && Apart(running.chain, expired.chain)
      && Apart(sleeping.chain, expired.chain)
    }

    /** The node is in none of them. */
    ghost predicate Loose(n: Node)
      reads ready, running, sleeping, expired
    {
      n !in ready.chain && n !in running.chain && n !in sleeping.chain && n !in expired.chain
    }

    ghost function Held(): Queued
      reads ready, running, sleeping, expired
    {
      Queued(ready.Nodes(), running.Nodes(), sleeping.Nodes(), expired.Nodes())
    }

    ghost function Footprint(): set<object>
      reads ready, running, sleeping, expired
    {
      {ready, running, sleeping, expired}
      + Members(ready.chain) + Members(running.chain) + Members(sleeping.chain) + Members(expired.chain)
    }

    /** queue_init and list_init of all four. */
    constructor ()
      ensures Linked()
      ensures fresh(ready) && fresh(running) && fresh(sleeping) && fresh(expired)
      ensures fresh(ready.sentinel) && fresh(running.sentinel) && fresh(sleeping.sentinel) && fresh(expired.sentinel)
      ensures ready.chain == [ready.sentinel] && running.chain == [running.sentinel]
      ensures sleeping.chain == [sleeping.sentinel] && expired.chain == [expired.sentinel]
    {
      ready := new Queue();
      running := new Queue();
      sleeping := new List();
      expired := new List();
      new;
      hide Chained, Apart;
      SinglesApart(ready.sentinel, running.sentinel, sleeping.sentinel, expired.sentinel);
    }

    /** The nodes of the four are in the footprint, and a node outside it is in none of them. */
    lemma Owns()
      requires Linked()
      ensures forall n | n in ready.chain :: n in Footprint()
      ensures forall n | n in running.chain :: n in Footprint()
      ensures forall n | n in sleeping.chain :: n in Footprint()
      ensures forall n | n in expired.chain :: n in Footprint()
      ensures ready in Footprint() && running in Footprint() && sleeping in Footprint() && expired in Footprint()
      ensures ready.tail in Footprint() && running.tail in Footprint()
      ensures forall n: Node :: Loose(n) <==> n !in Footprint()
      ensures ready != running && running.Valid() && sleeping.Valid() && expired.Valid()
      ensures |running.chain| == |running.Nodes()| + 1 && sleeping.size == |sleeping.Nodes()|
              && expired.size == |expired.Nodes()|
    {
    }

    /** queue_pop(&__queue_ready) */
    method Next() returns (n: Node?)
      requires Linked()
      modifies Footprint()
      ensures Linked() && Footprint() <= old(Footprint())
      ensures n == null <==> old(Held()).ready == []
      ensures n == null ==> Held() == old(Held())
      ensures n != null ==> n == old(Held()).ready[0] && n in old(Footprint()) && n !in Footprint()
      ensures n != null ==> Held() == old(Held()).(ready := old(Held()).ready[1..])
    {
      Owns();
      hide Chained, Apart, Members, Removed, FourLists.Linked, FourLists.Footprint, FourLists.Loose;
      n := PopReady();
      Owns();
    }

    /** queue_pop(&__queue_running) */
    method Stop() returns (n: Node?)
      requires Linked()
      modifies Footprint()
      ensures Linked() && Footprint() <= old(Footprint())
      ensures n == null <==> old(Held()).running == []
      ensures n == null ==> Held() == old(Held())
      ensures n != null ==> n == old(Held()).running[0] && n in old(Footprint()) && n !in Footprint()
      ensures n != null ==> Held() == old(Held()).(running := old(Held()).running[1..])
    {
      Owns();
      hide Chained, Apart, Members, Removed, FourLists.Linked, FourLists.Footprint, FourLists.Loose;
      n := PopRunning();
      Owns();
    }

    /** queue_push(&__queue_ready, n, TAIL) */
    method MakeReady(n: Node)
      requires Linked() && n !in Footprint()
      modifies Footprint(), n`next
      ensures Linked() && Footprint() == old(Footprint()) + {n}
      ensures Held() == old(Held()).(ready := old(Held()).ready + [n])
    {
      Owns();
      hide Chained, Apart, Members, Removed, FourLists.Linked, FourLists.Footprint, FourLists.Loose;
      PushReady(n);
      Owns();
    }

    /** queue_push(&__queue_running, n, TAIL) */
    method Run(n: Node)
      requires Linked() && n !in Footprint()
      modifies Footprint(), n`next
      ensures Linked() && Footprint() == old(Footprint()) + {n}
      ensures Held() == old(Held()).(running := old(Held()).running + [n])
    {
      Owns();
      hide Chained, Apart, Members, Removed, FourLists.Linked, FourLists.Footprint, FourLists.Loose;
      PushRunning(n);
      Owns();
    }

    /** list_insert(&__list_sleeping, n, LSIDX_AFTAIL(&__list_sleeping)) */
    method Rest(n: Node)
      requires Linked() && n !in Footprint()
      modifies Footprint(), n`next
      ensures Linked() && Footprint() == old(Footprint()) + {n}
      ensures Held() == old(Held()).(sleeping := old(Held()).sleeping + [n])
    {
      Owns();
      hide Chained, Apart, Members, Removed, FourLists.Linked, FourLists.Footprint, FourLists.Loose;
      AppendSleeping(n);
      Owns();
    }

    /** list_insert(&__list_expired, n, LSIDX_AFTAIL(&__list_expired)) */
    method Expire(n: Node)
      requires Linked() && n !in Footprint()
      modifies Footprint(), n`next
      ensures Linked() && Footprint() == old(Footprint()) + {n}
      ensures Held() == old(Held()).(expired := old(Held()).expired + [n])
    {
      Owns();
      hide Chained, Apart, Members, Removed, FourLists.Linked, FourLists.Footprint, FourLists.Loose;
      AppendExpired(n);
      Owns();
    }

    /** list_remove(&__list_sleeping, i) */
    method Wake(i: nat) returns (n: Node)
      requires Linked() && 1 <= i <= |Held().sleeping|
      modifies Footprint()
      ensures Linked() && Footprint() <= old(Footprint())
      ensures n == old(Held()).sleeping[i - 1] && n in old(Footprint()) && n !in Footprint()
      ensures Held() == old(Held()).(sleeping := Removed(old(Held()).sleeping, i - 1))
    {
      Owns();
      hide Chained, Apart, Members, Removed, FourLists.Linked, FourLists.Footprint, FourLists.Loose;
      n := RemoveSleeping(i);
      Owns();
    }

    /** list_remove(&__list_expired, i) */
    method Reap(i: nat) returns (n: Node)
      requires Linked() && 1 <= i <= |Held().expired|
      modifies Footprint()
      ensures Linked() && Footprint() <= old(Footprint())
      ensures n == old(Held()).expired[i - 1] && n in old(Footprint()) && n !in Footprint()
      ensures Held() == old(Held()).(expired := Removed(old(Held()).expired, i - 1))
    {
      Owns();
      hide Chained, Apart, Members, Removed, FourLists.Linked, FourLists.Footprint, FourLists.Loose;
      n := RemoveExpired(i);
      Owns();
    }

    /** queue_front(&__queue_running) */
    method Current() returns (n: Node?)
      requires Linked()
      ensures n == null <==> Held().running == []
      ensures n != null ==> n == Held().running[0]
    {
      n := running.Front();
    }

    lemma OnlyNodes()
      ensures forall o | o in Footprint() :: o is Queue || o is List || o is Node
    {
    }

    lemma Empty()
      requires ready.chain == [ready.sentinel] && running.chain == [running.sentinel]
      requires sleeping.chain == [sleeping.sentinel] && expired.chain == [expired.sentinel]
      ensures Held() == Queued([], [], [], [])
      ensures Footprint() == {ready, running, sleeping, expired}
                             + {ready.sentinel, running.sentinel, sleeping.sentinel, expired.sentinel}
    {
    }

    /** size_ of the two lists */
    lemma Sizes()
      requires Linked()
      ensures sleeping.size == |Held().sleeping| && expired.size == |Held().expired|
    {
    }

    /** list_find(&__list_sleeping, i) */
    method Sleeper(i: nat) returns (n: Node)
      requires Linked() && 1 <= i <= |Held().sleeping|
      ensures n == Held().sleeping[i - 1]
    {
      n := sleeping.Find(i);
    }

    /** The same calls with the objects each may change; the other three chains are outside them. */
    method PopReady() returns (n: Node?)
      requires Linked()
      modifies ready, ready.chain`next
      ensures Linked() && Footprint() <= old(Footprint())
      ensures n == null <==> old(ready.Nodes()) == []
      ensures n == null ==> ready.Nodes() == old(ready.Nodes())
      ensures n != null ==>
        n == old(ready.Nodes())[0] && ready.Nodes() == old(ready.Nodes())[1..] && Loose(n) && n in old(Footprint())
    {
      ghost var was := ready.chain;
      Popped(was);
      hide Chained, Distinct, Removed, Members;
      n := ready.Pop();
      assert running.Valid() && sleeping.Valid() && expired.Valid();
      ApartLess(was, ready.chain, running.chain);
      ApartLess(was, ready.chain, sleeping.chain);
      ApartLess(was, ready.chain, expired.chain);
      hide Apart;
    }

    method PopRunning() returns (n: Node?)
      requires Linked()
      modifies running, running.chain`next
      ensures Linked() && Footprint() <= old(Footprint())
      ensures n == null <==> old(running.Nodes()) == []
      ensures n == null ==> running.Nodes() == old(running.Nodes())
      ensures n != null ==>
        && n == old(running.Nodes())[0] && running.Nodes() == old(running.Nodes())[1..]
        && Loose(n) && n in old(Footprint())
    {
      ghost var was := running.chain;
      Popped(was);
      hide Chained, Distinct, Removed, Members;
      n := running.Pop();
      assert ready.Valid() && sleeping.Valid() && expired.Valid();
      ApartLess(was, running.chain, ready.chain);
      ApartLess(was, running.chain, sleeping.chain);
      ApartLess(was, running.chain, expired.chain);
      hide Apart;
    }

    method PushReady(n: Node)
      requires Linked() && Loose(n)
      modifies ready, ready.tail`next, n`next
      ensures Linked() && Footprint() == old(Footprint()) + {n}
      ensures ready.Nodes() == old(ready.Nodes()) + [n]
    {
      hide Chained, Distinct;
      ready.Push(n);
      assert running.Valid() && sleeping.Valid() && expired.Valid();
    }

    method PushRunning(n: Node)
      requires Linked() && Loose(n)
      modifies running, running.tail`next, n`next
      ensures Linked() && Footprint() == old(Footprint()) + {n}
      ensures running.Nodes() == old(running.Nodes()) + [n]
    {
      hide Chained, Distinct;
      running.Push(n);
      assert ready.Valid() && sleeping.Valid() && expired.Valid();
    }

    /** list_insert(list, n, LSIDX_AFTAIL(list)) */
    method AppendSleeping(n: Node)
      requires Linked() && Loose(n)
      modifies sleeping, sleeping.chain`next, n`next
      ensures Linked() && Footprint() == old(Footprint()) + {n}
      ensures sleeping.Nodes() == old(sleeping.Nodes()) + [n]
    {
      ghost var was := sleeping.chain;
      sleeping.Insert(n, sleeping.size + 1);
      Appended(was, n);
    }

    method AppendExpired(n: Node)
      requires Linked() && Loose(n)
      modifies expired, expired.chain`next, n`next
      ensures Linked() && Footprint() == old(Footprint()) + {n}
      ensures expired.Nodes() == old(expired.Nodes()) + [n]
    {
      ghost var was := expired.chain;
      expired.Insert(n, expired.size + 1);
      Appended(was, n);
    }

    /** list_remove(list, i) */
    method RemoveSleeping(i: nat) returns (n: Node)
      requires Linked() && 1 <= i <= |sleeping.Nodes()|
      modifies sleeping, sleeping.chain`next
      ensures Linked() && Footprint() <= old(Footprint()) && n in old(Footprint()) && Loose(n)
      ensures n == old(sleeping.Nodes())[i - 1] && sleeping.Nodes() == Removed(old(sleeping.Nodes()), i - 1)
    {
      ghost var was := sleeping.chain;
      TakenOut(was, i);
      hide Chained, Distinct, Removed, Members;
      n := sleeping.Remove(i);
      assert ready.Valid() && running.Valid() && expired.Valid();
      ApartLess(was, sleeping.chain, ready.chain);
      ApartLess(was, sleeping.chain, running.chain);
      ApartLess(was, sleeping.chain, expired.chain);
      hide Apart;
    }

    method RemoveExpired(i: nat) returns (n: Node)
      requires Linked() && 1 <= i <= |expired.Nodes()|
      modifies expired, expired.chain`next
      ensures Linked() && Footprint() <= old(Footprint()) && n in old(Footprint()) && Loose(n)
      ensures n == old(expired.Nodes())[i - 1] && expired.Nodes() == Removed(old(expired.Nodes()), i - 1)
    {
      ghost var was := expired.chain;
      TakenOut(was, i);
      hide Chained, Distinct, Removed, Members;
      n := expired.Remove(i);
      assert ready.Valid() && running.Valid() && sleeping.Valid();
      ApartLess(was, expired.chain, ready.chain);
      ApartLess(was, expired.chain, running.chain);
      ApartLess(was, expired.chain, sleeping.chain);
      hide Apart;
    }
  }

  /** Fewer nodes in one chain: still apart from the other, and what left it is in neither. */
  lemma ApartLess(was: seq<Node>, now: seq<Node>, other: seq<Node>)
    requires forall n | n in now :: n in was
    ensures Apart(was, other) ==> Apart(now, other) && forall n | n in was :: n !in other
    ensures Apart(other, was) ==> Apart(other, now) && forall n | n in was :: n !in other
  {
    assert forall i | 0 <= i < |now| :: now[i] in was;
  }

  lemma SinglesApart(a: Node, b: Node, c: Node, d: Node)
    requires a != b && a != c && a != d && b != c && b != d && c != d
    ensures Apart([a], [b]) && Apart([a], [c]) && Apart([a], [d])
    ensures Apart([b], [c]) && Apart([b], [d]) && Apart([c], [d])
  {
  }

  lemma Popped(was: seq<Node>)
    requires was != [] && Distinct(was)
    ensures 1 < |was| ==>
      var r := Removed(was, 1);
      && r != [] && r[1..] == was[1..][1..] && (forall n | n in r :: n in was)
      && was[1] !in r && Members(r) <= Members(was) && was[1] in Members(was)
  {
  }

  lemma Appended(was: seq<Node>, n: Node)
    requires was != []
    ensures Inserted(was, |was|, n) == was + [n] && (was + [n])[1..] == was[1..] + [n]
  {
  }

  lemma TakenOut(was: seq<Node>, i: nat)
    requires 1 <= i < |was| && Distinct(was)
    ensures var r := Removed(was, i);
            && r != [] && r[1..] == Removed(was[1..], i - 1) && (forall n | n in r :: n in was)
            && was[i] !in r && Members(r) <= Members(was) && was[i] in Members(was)
  {
  }
}
