/**
  kern/sched/tasks.c: the calls that change the task queues, on the linked queues and lists. A
  task is its node; ticks and sleep are the fields of its PCB.
 */
module Tasks {
  import opened Containers
  import opened Scheduling
  import opened Slices
  import opened TaskLists
  import opened Wrappers

  class Scheduler {
    const lists: FourLists
    /** ticks_ and sleep_ of every task's PCB */
    var ticks: map<Node, nat>
    var sleep: map<Node, Option<nat>>

    ghost function State(): Sched<Node>
      reads this, lists, lists.ready, lists.running, lists.sleeping, lists.expired
    {
      var h := lists.Held();
      Sched(h.ready, h.running, h.sleeping, h.expired, ticks, sleep)
    }

    ghost predicate Valid()
      reads this, lists, lists.ready, lists.ready.chain, lists.running, lists.running.chain
      reads lists.sleeping, lists.sleeping.chain, lists.expired, lists.expired.chain
    {
      lists.Linked() && this !in lists.Footprint() && Inv(State()) && FullSlices(State())
    }

    /** init_tasks_system: the flow that booted runs as task hoo. */
    constructor (hoo: Node)
      modifies hoo`next
      ensures Valid()
      ensures State() == Booted(hoo)
    {
      hide Inv, FullSlices, Chained, Apart, Members, FourLists.Linked, FourLists.Footprint;
      var four := BootLists(hoo);
      lists := four;
      ticks, sleep := Booted(hoo).ticks, Booted(hoo).sleep;
      BootedInv(hoo);
      four.OnlyNodes();
    }

    /** scheduler() with the lock free; switch_to itself is not modelled. */
    method Schedule()
      requires Valid()
      modifies this`ticks, lists.Footprint()
      ensures Valid() && Takes(old(State()), Event.Tick, State())
      ensures lists.Footprint() <= old(lists.Footprint())
    {
      hide Inv, FullSlices, Scheduling.Tasks, Chained, Apart, Members;
      hide FourLists.Linked, FourLists.Footprint, FourLists.Loose;
      ghost var s := State();
      RunningKnown(s);
      CallKeepsInv(s);
      CallKeepsFull(s);
      var cur := lists.Current();
      if cur != null && sleep[cur] == None {
        if ticks[cur] > 0 {
          ticks := ticks[cur := ticks[cur] - 1];
          assert State() == Call(s);
          return;
        }
        ticks := ticks[cur := TIMETICKS];
      }
      var next := lists.Next();
      if next != null {
        SwitchLists(lists, sleep, next);
      }
      assert State() == Call(s);
    }

    /** sleep() up to its scheduler() call. */
    method SleepOn(resource: nat)
      requires Valid() && State().running != []
      modifies this, lists.Footprint()
      ensures Valid() && Takes(old(State()), Event.Sleep(resource), State())
      ensures lists.Footprint() <= old(lists.Footprint())
    {
      hide Inv, FullSlices, Scheduling.Tasks, Chained, Apart, Members;
      hide FourLists.Linked, FourLists.Footprint, FourLists.Loose;
      RunningKnown(State());
      MarkKeepsInv(State(), Some(resource));
      MarkKeepsFull(State(), Some(resource));
      var cur := lists.Current();
      sleep := sleep[cur := Some(resource)];
      Schedule();
    }

    /** The end of sleep(), once the task runs again. */
    method FinishSleep()
      requires Valid() && State().running != []
      modifies this
      ensures Valid() && Takes(old(State()), Event.Resume, State())
    {
      hide Inv, FullSlices, Scheduling.Tasks, Chained, Apart, Members;
      hide FourLists.Linked, FourLists.Footprint, FourLists.Loose;
      RunningKnown(State());
      MarkKeepsInv(State(), None);
      MarkKeepsFull(State(), None);
      var cur := lists.Current();
      sleep := sleep[cur := None];
    }

    /** wakeup() */
    method Wakeup(resource: nat)
      requires Valid()
      modifies lists.Footprint()
      ensures Valid() && Takes(old(State()), Event.Wake(resource), State())
      ensures lists.Footprint() <= old(lists.Footprint())
    {
      hide Inv, FullSlices, Scheduling.Tasks, Pick, Chained, Apart, Members;
      hide FourLists.Linked, FourLists.Footprint, FourLists.Loose;
      RunningKnown(State());
      StepKeepsInv(State(), Event.Wake(resource));
      StepKeepsFull(State(), Event.Wake(resource));
      WakeAll(lists, sleep, resource);
    }

    /** The queue step of fork(): a new PCB with a full slice, at the tail of the ready queue. */
    method ForkTask(child: Node)
      requires Valid() && child !in lists.Footprint() && child !in ticks && child !in sleep
      modifies this, lists.Footprint(), child`next
      ensures Valid() && Takes(old(State()), Event.Fork(child), State())
      ensures lists.Footprint() == old(lists.Footprint()) + {child}
    {
      hide Inv, FullSlices, Scheduling.Tasks, Chained, Apart, Members;
      hide FourLists.Linked, FourLists.Footprint, FourLists.Loose;
      RunningKnown(State());
      StepKeepsInv(State(), Event.Fork(child));
      StepKeepsFull(State(), Event.Fork(child));
      ticks, sleep := ticks[child := TIMETICKS], sleep[child := None];
      lists.MakeReady(child);
    }

    /** The queue step of exit(); the scheduler() call that follows is a Schedule. */
    method ExitTask()
      requires Valid() && State().running != []
      modifies lists.Footprint()
      ensures Valid() && Takes(old(State()), Event.Exit, State())
      ensures lists.Footprint() <= old(lists.Footprint())
    {
      hide Inv, FullSlices, Scheduling.Tasks, Chained, Apart, Members;
      hide FourLists.Linked, FourLists.Footprint, FourLists.Loose;
      RunningKnown(State());
      StepKeepsInv(State(), Event.Exit);
      StepKeepsFull(State(), Event.Exit);
      var n := lists.Stop();
      lists.Expire(n);
    }

    /** kill() */
    method Kill() returns (destroyed: seq<Node>)
      requires Valid()
      modifies lists.Footprint()
      ensures destroyed == Destroyed(old(State()).expired)
      ensures Valid() && Takes(old(State()), Event.Kill, State())
      ensures lists.Footprint() <= old(lists.Footprint())
    {
      hide Inv, FullSlices, Scheduling.Tasks, Survivors, Destroyed;
      hide Chained, Apart, Members, FourLists.Linked, FourLists.Footprint, FourLists.Loose;
      RunningKnown(State());
      StepKeepsInv(State(), Event.Kill);
      StepKeepsFull(State(), Event.Kill);
      destroyed := KillAll(lists);
    }
  }

  /** queue_init and list_init of the four and the queue_push of init_tasks_system */
  method BootLists(hoo: Node) returns (lists: FourLists)
    modifies hoo`next
    ensures fresh(lists) && lists.Linked() && lists.Held() == Queued([], [hoo], [], [])
    ensures fresh(lists.Footprint() - {hoo})
  {
    lists := new FourLists();
    hide Chained, Apart, Members, FourLists.Linked, FourLists.Footprint, FourLists.Loose;
    lists.Empty();
    lists.Run(hoo);
  }

  /**
    What scheduler() does once a next task is there: the running one goes to sleep or gets ready,
    the next one runs.
   */
  method SwitchLists(lists: FourLists, sleep: map<Node, Option<nat>>, next: Node)
    requires lists.Linked() && next !in lists.Footprint() && forall n | n in lists.Held().running :: n in sleep
    modifies lists.Footprint(), next`next
    ensures lists.Linked() && lists.Footprint() <= old(lists.Footprint()) + {next}
    ensures
      var h := old(lists.Held());
      lists.Held() ==
        if h.running == [] then h.(running := [next])
        else if sleep[h.running[0]] == None then
          h.(ready := h.ready + [h.running[0]], running := h.running[1..] + [next])
        else h.(sleeping := h.sleeping + [h.running[0]], running := h.running[1..] + [next])
  {
    hide Chained, Apart, Members, FourLists.Linked, FourLists.Footprint, FourLists.Loose;
    var cur := lists.Stop();
    if cur != null {
      if sleep[cur] != None {
        lists.Rest(cur);
      } else {
        lists.MakeReady(cur);
      }
    }
    lists.Run(next);
  }

  /** One turn of wakeup()'s loop: the task at position i gets ready if it waits for the resource. */
  method WakeAt(lists: FourLists, sleep: map<Node, Option<nat>>, resource: nat, i: nat) returns (woke: bool)
    requires lists.Linked() && 1 <= i <= |lists.Held().sleeping|
    modifies lists.Footprint()
    ensures lists.Linked() && lists.Footprint() <= old(lists.Footprint())
    ensures lists.sleeping.size == |lists.Held().sleeping|
    ensures
      var h := old(lists.Held());
      var n := h.sleeping[i - 1];
      && woke == (n in sleep && sleep[n] == Some(resource))
      && lists.Held() == if woke then h.(ready := h.ready + [n], sleeping := Removed(h.sleeping, i - 1)) else h
  {
    hide Removed, Chained, Apart, Members, FourLists.Linked, FourLists.Footprint, FourLists.Loose;
    var n := lists.Sleeper(i);
    woke := n in sleep && sleep[n] == Some(resource);
    if woke {
      n := lists.Wake(i);
      lists.MakeReady(n);
    }
    lists.Sizes();
  }

  /** The loop of wakeup(): its index counts from 1 and steps back after each removal. */
  method WakeAll(lists: FourLists, sleep: map<Node, Option<nat>>, resource: nat)
    requires lists.Linked()
    modifies lists.Footprint()
    ensures lists.Linked() && lists.Footprint() <= old(lists.Footprint())
    ensures var h := old(lists.Held());
            lists.Held() == h.(ready := h.ready + Pick(h.sleeping, sleep, resource, true),
                               sleeping := Pick(h.sleeping, sleep, resource, false))
  {
    hide Waking, Pick, Removed, Chained, Apart, Members, FourLists.Linked, FourLists.Footprint, FourLists.Loose;
    ghost var h := lists.Held();
    ghost var kept, woken, rest := [], [], h.sleeping;
    WakeStart(h, sleep, resource);
    var i := 1;
    lists.Sizes();
    while i <= lists.sleeping.size
      invariant lists.Linked() && lists.Footprint() <= old(lists.Footprint())
      invariant lists.sleeping.size == |lists.Held().sleeping|
      invariant i == |kept| + 1
      invariant Waking(h, lists.Held(), sleep, resource, kept, woken, rest)
      decreases |rest|
    {
      WakeNext(h, lists.Held(), sleep, resource, kept, woken, rest);
      var woke := WakeAt(lists, sleep, resource, i);
      if woke {
        woken := woken + [rest[0]];
        i := i - 1;
      } else {
        kept := kept + [rest[0]];
      }
      rest := rest[1..];
      i := i + 1;
    }
    WakeEnd(h, lists.Held(), sleep, resource, kept, woken, rest);
  }

  /** The loop of kill(): its index moves on although the list closed up behind it. */
  method KillAll(lists: FourLists) returns (destroyed: seq<Node>)
    requires lists.Linked()
    modifies lists.Footprint()
    ensures lists.Linked() && lists.Footprint() <= old(lists.Footprint())
    ensures lists.Held() == old(lists.Held()).(expired := Survivors(old(lists.Held()).expired))
    ensures destroyed == Destroyed(old(lists.Held()).expired)
  {
    hide Killing, Survivors, Destroyed, Removed, Chained, Apart, Members;
    hide FourLists.Linked, FourLists.Footprint, FourLists.Loose;
    ghost var h := lists.Held();
    destroyed := [];
    ghost var left, rest := [], h.expired;
    KillStart(h);
    var i := 1;
    lists.Sizes();
    while i <= lists.expired.size
      invariant lists.Linked() && lists.Footprint() <= old(lists.Footprint())
      invariant lists.expired.size == |lists.Held().expired| == |left| + |rest|
      invariant i == |left| + 1 || (rest == [] && i == |left| + 2)
      invariant Killing(h, lists.Held(), left, destroyed, rest)
      decreases |rest|
    {
      KillNext(h, lists.Held(), left, destroyed, rest);
      var n := lists.Reap(i);
      destroyed := destroyed + [n];
      if |rest| == 1 {
        rest := [];
      } else {
        left, rest := left + [rest[1]], rest[2..];
      }
      i := i + 1;
      lists.Sizes();
    }
    KillEnd(h, lists.Held(), left, destroyed, rest);
  }

  /** The state after init_tasks_system: one running task. */
  function Booted<T>(hoo: T): Sched<T> {
    Sched([], [hoo], [], [], map[hoo := TIMETICKS], map[hoo := None])
  }

  lemma BootedInv<T>(hoo: T)
    ensures Inv(Booted(hoo)) && FullSlices(Booted(hoo))
  {
    assert Scheduling.Tasks(Booted(hoo)) == multiset{hoo};
  }

  /** wakeup()'s loop so far: these sleepers are kept, these woken, and the rest is not looked at. */
  ghost predicate Waking(h: Queued, now: Queued, sleep: map<Node, Option<nat>>, r: nat,
                         kept: seq<Node>, woken: seq<Node>, rest: seq<Node>) {
    && now == h.(ready := h.ready + woken, sleeping := kept + rest)
    && Pick(h.sleeping, sleep, r, false) == kept + Pick(rest, sleep, r, false)
    && Pick(h.sleeping, sleep, r, true) == woken + Pick(rest, sleep, r, true)
  }

  lemma WakeStart(h: Queued, sleep: map<Node, Option<nat>>, r: nat)
    ensures Waking(h, h, sleep, r, [], [], h.sleeping)
  {
    assert [] + h.sleeping == h.sleeping && h.ready + [] == h.ready;
  }

  lemma WakeEnd(h: Queued, now: Queued, sleep: map<Node, Option<nat>>, r: nat,
                kept: seq<Node>, woken: seq<Node>, rest: seq<Node>)
    requires Waking(h, now, sleep, r, kept, woken, rest) && |now.sleeping| <= |kept|
    ensures now == h.(ready := h.ready + Pick(h.sleeping, sleep, r, true),
                      sleeping := Pick(h.sleeping, sleep, r, false))
  {
    assert rest == [] && kept + [] == kept && woken + [] == woken;
  }

  /** One turn: the first task not looked at is woken or kept. */
  lemma WakeNext(h: Queued, now: Queued, sleep: map<Node, Option<nat>>, r: nat,
                 kept: seq<Node>, woken: seq<Node>, rest: seq<Node>)
    requires Waking(h, now, sleep, r, kept, woken, rest) && |kept| < |now.sleeping|
    ensures rest != [] && now.sleeping[|kept|] == rest[0]
    ensures
      var n := rest[0];
      if n in sleep && sleep[n] == Some(r) then
        Waking(h, now.(ready := now.ready + [n], sleeping := Removed(now.sleeping, |kept|)), sleep, r,
               kept, woken + [n], rest[1..])
      else Waking(h, now, sleep, r, kept + [n], woken, rest[1..])
  {
    NextStep(kept, rest);
    Assoc(h.ready, woken, [rest[0]]);
    Assoc(woken, [rest[0]], Pick(rest[1..], sleep, r, true));
    Assoc(kept, [rest[0]], Pick(rest[1..], sleep, r, false));
    PickFirst(rest, sleep, r);
    hide Pick, Removed;
  }

  lemma PickFirst<T>(rest: seq<T>, sleep: map<T, Option<nat>>, r: nat)
    requires rest != []
    ensures
      var hit := rest[0] in sleep && sleep[rest[0]] == Some(r);
      && Pick(rest, sleep, r, hit) == [rest[0]] + Pick(rest[1..], sleep, r, hit)
      && Pick(rest, sleep, r, !hit) == Pick(rest[1..], sleep, r, !hit)
  {
  }

  lemma Assoc<T>(a: seq<T>, b: seq<T>, c: seq<T>)
    ensures (a + b) + c == a + (b + c)
  {
  }

  /** kill()'s loop so far: these tasks are left, these destroyed, and the rest is not looked at. */
  ghost predicate Killing(h: Queued, now: Queued, left: seq<Node>, destroyed: seq<Node>, rest: seq<Node>) {
    && now == h.(expired := left + rest)
    && Survivors(h.expired) == left + Survivors(rest)
    && Destroyed(h.expired) == destroyed + Destroyed(rest)
  }

  lemma KillStart(h: Queued)
    ensures Killing(h, h, [], [], h.expired)
  {
    assert [] + h.expired == h.expired;
  }

  lemma KillEnd(h: Queued, now: Queued, left: seq<Node>, destroyed: seq<Node>, rest: seq<Node>)
    requires Killing(h, now, left, destroyed, rest) && rest == []
    ensures now == h.(expired := Survivors(h.expired)) && destroyed == Destroyed(h.expired)
  {
    assert left + [] == left && destroyed + [] == destroyed;
  }

  /** One turn: the first task not looked at is destroyed, the one behind it is skipped. */
  lemma KillNext(h: Queued, now: Queued, left: seq<Node>, destroyed: seq<Node>, rest: seq<Node>)
    requires Killing(h, now, left, destroyed, rest) && rest != []
    ensures |left| < |now.expired| && now.expired[|left|] == rest[0]
    ensures
      var n := now.(expired := Removed(now.expired, |left|));
      if |rest| == 1 then Killing(h, n, left, destroyed + [rest[0]], [])
      else Killing(h, n, left + [rest[1]], destroyed + [rest[0]], rest[2..])
  {
    NextStep(left, rest);
    if 2 <= |rest| {
      Assoc(left, [rest[1]], Survivors(rest[2..]));
      Assoc(destroyed, [rest[0]], Destroyed(rest[2..]));
    }
  }

  /** The list holds the tasks kept and then those not looked at; the first of these is removed or kept. */
  lemma NextStep<T>(kept: seq<T>, rest: seq<T>)
    requires rest != []
    ensures (kept + rest)[|kept|] == rest[0] && Removed(kept + rest, |kept|) == kept + rest[1..]
    ensures kept + rest == (kept + [rest[0]]) + rest[1..]
    ensures |rest| == 1 ==> rest[1..] == []
    ensures 2 <= |rest| ==> kept + rest[1..] == (kept + [rest[1]]) + rest[2..]
  {
  }
}
