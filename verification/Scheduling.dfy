/** kern/sched/tasks.c as a state machine: the four task sets and the steps that move tasks between them. */
module Scheduling {
  import opened Wrappers

  const TIMETICKS: nat := 16

  /**
    The state guarded by __sl_tasks. A task is named by T; ticks and sleep are the fields of
    its PCB, for every task that was ever created.
   */
  datatype Sched<!T(==)> = Sched(
    ready: seq<T>, running: seq<T>, sleeping: seq<T>, expired: seq<T>,
    ticks: map<T, nat>, sleep: map<T, Option<nat>>)

  /** One atomic step taken while the lock is free. */
  datatype Event<T> =
    | Tick               // a call of scheduler()
    | Sleep(r: nat)      // sleep(): mark the running task and call scheduler()
    | Resume             // the end of sleep(): the running task clears its mark
    | Wake(w: nat)       // wakeup()
    | Fork(child: T)     // the queue step of fork()
    | Exit               // the queue step of exit(); its scheduler() call is a Tick
    | Kill               // one call of kill()

  ghost function Tasks<T>(s: Sched<T>): multiset<T> {
    multiset(s.ready) + multiset(s.running) + multiset(s.sleeping) + multiset(s.expired)
  }

  /** Every task is in one place only; at most one runs; sleepers have a resource; time slices are bounded. */
  ghost predicate Inv<T>(s: Sched<T>) {
    && (forall t | t in Tasks(s) :: Tasks(s)[t] == 1)
    && |s.running| <= 1
    && (forall t | t in Tasks(s) :: t in s.ticks && t in s.sleep && s.ticks[t] <= TIMETICKS)
    && (forall t | t in s.sleeping :: t in s.sleep && s.sleep[t].Some?)
    && Known(s)
  }

  /** The running task has a PCB. */
  predicate Known<T>(s: Sched<T>) {
    forall t | t in s.running :: t in s.sleep && t in s.ticks
  }

  /** The part of scheduler() that changes tasks. */
  function Switch<T>(s: Sched<T>): Sched<T>
    requires s.ready != [] && Known(s)
  {
    var next, rest := s.ready[0], s.ready[1..];
    if s.running == [] then s.(ready := rest, running := [next])
    else
      var cur := s.running[0];
      if s.sleep[cur].Some? then s.(ready := rest, running := s.running[1..] + [next], sleeping := s.sleeping + [cur])
      else s.(ready := rest + [cur], running := s.running[1..] + [next])
  }

  /** scheduler() */
  function Call<T>(s: Sched<T>): Sched<T>
    requires Known(s)
  {
    if s.running != [] && s.sleep[s.running[0]].None? then
      var cur := s.running[0];
      if s.ticks[cur] > 0 then s.(ticks := s.ticks[cur := s.ticks[cur] - 1])
      else
        var full := s.(ticks := s.ticks[cur := TIMETICKS]);
        if s.ready == [] then full else Switch(full)
    else if s.ready == [] then s
    else Switch(s)
  }

  /** The tasks of q that wait for r (or, with hit false, the others), in q's order. */
  function Pick<T>(q: seq<T>, sleep: map<T, Option<nat>>, r: nat, hit: bool): seq<T> {
    if q == [] then []
    else
      var waits := q[0] in sleep && sleep[q[0]] == Some(r);
      (if waits == hit then [q[0]] else []) + Pick(q[1..], sleep, r, hit)
  }

  /** kill() destroys positions 1, 3, 5, ... and leaves the others. */
  function Survivors<T>(q: seq<T>): seq<T> {
    if |q| < 2 then [] else [q[1]] + Survivors(q[2..])
  }

  function Destroyed<T>(q: seq<T>): seq<T> {
    if q == [] then [] else if |q| == 1 then [q[0]] else [q[0]] + Destroyed(q[2..])
  }

  predicate Enabled<T>(s: Sched<T>, e: Event<T>) {
    match e
    case Sleep(_) => s.running != []
    case Resume => s.running != []
    case Exit => s.running != []
    case Fork(t) => t !in s.ticks && t !in s.sleep
    case _ => true
  }

  function Step<T>(s: Sched<T>, e: Event<T>): Sched<T>
    requires Enabled(s, e) && Known(s)
  {
    match e
    case Tick => Call(s)
    case Sleep(r) => Call(s.(sleep := s.sleep[s.running[0] := Some(r)]))
    case Resume => s.(sleep := s.sleep[s.running[0] := None])
    case Wake(r) =>
      s.(ready := s.ready + Pick(s.sleeping, s.sleep, r, true), sleeping := Pick(s.sleeping, s.sleep, r, false))
    case Fork(t) => s.(ready := s.ready + [t], ticks := s.ticks[t := TIMETICKS], sleep := s.sleep[t := None])
    case Exit => s.(running := s.running[1..], expired := s.expired + [s.running[0]])
    case Kill => s.(expired := Survivors(s.expired))
  }

  /** The event can happen in s and leads to n. */
  ghost predicate Takes<T>(s: Sched<T>, e: Event<T>, n: Sched<T>) {
    Enabled(s, e) && Known(s) && n == Step(s, e)
  }

  lemma HeadTail<T>(q: seq<T>)
    requires q != []
    ensures multiset(q) == multiset{q[0]} + multiset(q[1..])
  {
    assert q == [q[0]] + q[1..];
  }

  lemma AddLast<T>(q: seq<T>, x: T)
    ensures multiset(q + [x]) == multiset(q) + multiset{x}
  {
  }

  lemma Regroup<T>(next: multiset<T>, cur: multiset<T>, ready: multiset<T>, sleeping: multiset<T>, expired: multiset<T>)
    ensures (next + ready) + cur + sleeping + expired == ready + next + (sleeping + cur) + expired
    ensures (next + ready) + cur + sleeping + expired == (ready + cur) + next + sleeping + expired
  {
  }

  lemma MoveHead<T>(from: seq<T>, to: seq<T>)
    requires from != []
    ensures multiset(from[1..]) + multiset(to + [from[0]]) == multiset(from) + multiset(to)
  {
    HeadTail(from);
  }

  lemma SwitchConserves<T>(s: Sched<T>)
    requires Inv(s) && s.ready != []
    ensures Tasks(Switch(s)) == Tasks(s)
  {
    assert |s.running| <= 1;
    hide Inv;
    if s.running != [] {
      hide Switch;
      SwitchOut(s);
    } else {
      MoveHead(s.ready, []);
      assert [] + [s.ready[0]] == [s.ready[0]];
    }
  }

  lemma SwitchOut<T>(s: Sched<T>)
    requires Known(s) && s.ready != [] && |s.running| == 1
    ensures Tasks(Switch(s)) == Tasks(s)
  {
    hide Tasks;
    var next, cur := s.ready[0], s.running[0];
    assert s.running == [cur] && s.running[1..] + [next] == [next];
    var q := s.(ready := s.ready[1..], running := [next]);
    TasksSplit(s, q, cur);
  }

  lemma TasksSplit<T>(s: Sched<T>, q: Sched<T>, cur: T)
    requires s.ready != [] && s.running == [cur] && q == s.(ready := s.ready[1..], running := [s.ready[0]])
    ensures Tasks(q.(sleeping := s.sleeping + [cur])) == Tasks(s)
    ensures Tasks(q.(ready := s.ready[1..] + [cur])) == Tasks(s)
  {
    OneSwitched(s.ready, s.sleeping, s.expired, cur);
  }

  /** The next task leaves the ready queue; the old one goes to sleep or to the end of that queue. */
  lemma OneSwitched<T>(ready: seq<T>, sleeping: seq<T>, expired: seq<T>, cur: T)
    requires ready != []
    ensures var all := multiset(ready) + multiset([cur]) + multiset(sleeping) + multiset(expired);
            && multiset(ready[1..]) + multiset([ready[0]]) + multiset(sleeping + [cur]) + multiset(expired) == all
            && multiset(ready[1..] + [cur]) + multiset([ready[0]]) + multiset(sleeping) + multiset(expired) == all
  {
    HeadTail(ready);
    AddLast(sleeping, cur);
    AddLast(ready[1..], cur);
    Regroup(multiset{ready[0]}, multiset{cur}, multiset(ready[1..]), multiset(sleeping), multiset(expired));
  }

  lemma TicksKeepInv<T>(s: Sched<T>, t: T, x: nat)
    requires Inv(s) && x <= TIMETICKS
    ensures Inv(s.(ticks := s.ticks[t := x])) && Tasks(s.(ticks := s.ticks[t := x])) == Tasks(s)
  {
    var n := s.(ticks := s.ticks[t := x]);
    assert Tasks(n) == Tasks(s);
    hide Tasks;
  }

  lemma RunningIsTask<T>(s: Sched<T>)
    requires Inv(s) && s.running != []
    ensures s.running[0] in Tasks(s)
  {
    assert s.running[0] in multiset(s.running);
  }

  /** scheduler() neither creates nor loses a task. */
  lemma CallConserves<T>(s: Sched<T>)
    requires Inv(s)
    ensures Tasks(Call(s)) == Tasks(s)
  {
    hide Tasks, Switch;
    if s.running != [] {
      RunningIsTask(s);
    }
    if s.running != [] && s.sleep[s.running[0]].None? {
      var cur := s.running[0];
      TicksKeepInv(s, cur, if s.ticks[cur] > 0 then s.ticks[cur] - 1 else TIMETICKS);
      if s.ticks[cur] == 0 && s.ready != [] {
        SwitchConserves(s.(ticks := s.ticks[cur := TIMETICKS]));
      }
    } else if s.ready != [] {
      SwitchConserves(s);
    }
  }

  lemma {:induction false} PickSplits<T>(q: seq<T>, sleep: map<T, Option<nat>>, r: nat)
    ensures multiset(Pick(q, sleep, r, true)) + multiset(Pick(q, sleep, r, false)) == multiset(q)
  {
    if q != [] {
      HeadTail(q);
      PickSplits(q[1..], sleep, r);
    }
  }

  lemma {:induction false} PickedWait<T>(q: seq<T>, sleep: map<T, Option<nat>>, r: nat, hit: bool)
    ensures forall t | t in Pick(q, sleep, r, hit) :: t in q && (t in sleep && sleep[t] == Some(r)) == hit
  {
    if q != [] {
      PickedWait(q[1..], sleep, r, hit);
    }
  }

  /** wakeup() keeps the order on both sides: the task at i lands behind exactly the picked ones before it. */
  lemma {:induction false} PickStable<T>(q: seq<T>, sleep: map<T, Option<nat>>, r: nat, hit: bool, i: nat)
    requires i < |q| && (q[i] in sleep && sleep[q[i]] == Some(r)) == hit
    ensures |Pick(q[..i], sleep, r, hit)| < |Pick(q, sleep, r, hit)|
    ensures Pick(q, sleep, r, hit)[|Pick(q[..i], sleep, r, hit)|] == q[i]
  {
    if i != 0 {
      PickStable(q[1..], sleep, r, hit, i - 1);
      assert q[..i][1..] == q[1..][..i - 1];
    }
  }

  lemma {:induction false} KillSplits<T>(q: seq<T>)
    ensures multiset(Survivors(q)) + multiset(Destroyed(q)) == multiset(q)
    ensures |Survivors(q)| == |q| / 2
  {
    if |q| == 1 {
      assert q == [q[0]];
    } else if 2 <= |q| {
      assert q == [q[0]] + ([q[1]] + q[2..]);
      KillSplits(q[2..]);
    }
  }

  /** Tasks that a step brings in and takes out. */
  function Born<T>(e: Event<T>): seq<T> {
    if e.Fork? then [e.child] else []
  }

  function Gone<T>(s: Sched<T>, e: Event<T>): seq<T> {
    if e.Kill? then Destroyed(s.expired) else []
  }

  lemma WakeConserves<T>(s: Sched<T>, r: nat)
    requires Inv(s)
    ensures Tasks(s.(ready := s.ready + Pick(s.sleeping, s.sleep, r, true),
                     sleeping := Pick(s.sleeping, s.sleep, r, false))) == Tasks(s)
  {
    hide Inv;
    PickSplits(s.sleeping, s.sleep, r);
  }

  lemma MarkKeepsInv<T>(s: Sched<T>, mark: Option<nat>)
    requires Inv(s) && s.running != []
    ensures Inv(s.(sleep := s.sleep[s.running[0] := mark]))
  {
    var cur := s.running[0];
    assert cur in multiset(s.running);
    assert Tasks(s)[cur] <= 1;
    assert forall t | t in s.sleeping :: t in multiset(s.sleeping);
    assert forall t | t in s.sleeping :: t != cur;
  }

  lemma SwitchFields<T>(s: Sched<T>)
    requires Inv(s) && s.ready != []
    ensures var n: Sched<T> := Switch(s);
            && n.ticks == s.ticks && n.sleep == s.sleep && |n.running| == 1 && Known(n)
            && forall t | t in n.sleeping :: t in s.sleeping || (t in n.sleep && n.sleep[t].Some?)
  {
    ReadyIsTask(s);
    hide Tasks;
  }

  lemma ReadyIsTask<T>(s: Sched<T>)
    requires Inv(s) && s.ready != []
    ensures s.ready[0] in s.ticks && s.ready[0] in s.sleep
  {
    assert s.ready[0] in multiset(s.ready);
    assert s.ready[0] in Tasks(s);
    hide Tasks;
  }

  lemma SwitchKeepsInv<T>(s: Sched<T>)
    requires Inv(s) && s.ready != []
    ensures Inv(Switch(s))
  {
    hide Tasks, Switch;
    SwitchConserves(s);
    SwitchFields(s);
  }

  lemma CallKeepsInv<T>(s: Sched<T>)
    requires Inv(s)
    ensures Inv(Call(s))
  {
    hide Tasks, Switch;
    if s.running != [] {
      RunningIsTask(s);
    }
    if s.running != [] && s.sleep[s.running[0]].None? {
      var cur := s.running[0];
      if s.ticks[cur] > 0 {
        TicksKeepInv(s, cur, s.ticks[cur] - 1);
      } else {
        TicksKeepInv(s, cur, TIMETICKS);
        if s.ready != [] {
          SwitchKeepsInv(s.(ticks := s.ticks[cur := TIMETICKS]));
        }
      }
    } else if s.ready != [] {
      SwitchKeepsInv(s);
    }
  }

  /** The invariant holds after every step. */
  lemma StepKeepsInv<T>(s: Sched<T>, e: Event<T>)
    requires Inv(s) && Enabled(s, e)
    ensures Inv(Step(s, e))
  {
    hide Tasks, Call, Pick, Survivors, Inv;
    RunningKnown(s);
    match e
    case Tick => CallKeepsInv(s);
    case Sleep(r) =>
      MarkKeepsInv(s, Some(r));
      CallKeepsInv(s.(sleep := s.sleep[s.running[0] := Some(r)]));
    case Resume => MarkKeepsInv(s, None);
    case Wake(r) => WakeInv(s, r);
    case Fork(t) => ForkInv(s, t);
    case Exit => ExitInv(s);
    case Kill => KillInv(s);
  }

  lemma RunningKnown<T>(s: Sched<T>)
    requires Inv(s)
    ensures Known(s)
  {
    if s.running != [] {
      RunningIsTask(s);
    }
    hide Tasks;
  }

  lemma WakeInv<T>(s: Sched<T>, r: nat)
    requires Inv(s)
    ensures Inv(Step(s, Wake(r)))
  {
    hide Tasks, Pick;
    WakeConserves(s, r);
    PickedWait(s.sleeping, s.sleep, r, false);
  }

  lemma ExitInv<T>(s: Sched<T>)
    requires Inv(s) && s.running != []
    ensures Inv(Step(s, Exit))
  {
    hide Tasks;
    ExitConserves(s);
  }

  lemma ExitConserves<T>(s: Sched<T>)
    requires s.running != []
    ensures Tasks(s.(running := s.running[1..], expired := s.expired + [s.running[0]])) == Tasks(s)
  {
    HeadTail(s.running);
  }

  lemma ForkConserves<T>(s: Sched<T>, t: T)
    ensures Tasks(s.(ready := s.ready + [t], ticks := s.ticks[t := TIMETICKS], sleep := s.sleep[t := None]))
         == Tasks(s) + multiset{t}
  {
  }

  lemma SleepersAreTasks<T>(s: Sched<T>)
    ensures forall u | u in s.sleeping :: u in Tasks(s)
  {
    assert forall u | u in s.sleeping :: u in multiset(s.sleeping);
  }

  lemma ForkInv<T>(s: Sched<T>, t: T)
    requires Inv(s) && Enabled(s, Fork(t))
    ensures Inv(Step(s, Fork(t)))
  {
    hide Tasks;
    ForkConserves(s, t);
    SleepersAreTasks(s);
    assert t !in Tasks(s);
  }

  lemma KillInv<T>(s: Sched<T>)
    requires Inv(s)
    ensures Inv(Step(s, Kill))
  {
    hide Tasks, Survivors, Destroyed;
    KillConserves(s);
    var n := Step(s, Kill);
    forall t | t in Tasks(n)
      ensures t in Tasks(s) && Tasks(n)[t] == 1
    {
      assert (Tasks(n) + multiset(Destroyed(s.expired)))[t] == Tasks(n)[t] + multiset(Destroyed(s.expired))[t];
    }
  }

  lemma KillConserves<T>(s: Sched<T>)
    ensures Tasks(s.(expired := Survivors(s.expired))) + multiset(Destroyed(s.expired)) == Tasks(s)
  {
    KillSplits(s.expired);
  }

  /** What every step conserves: tasks afterwards plus tasks destroyed are tasks before plus tasks forked. */
  lemma StepConserves<T>(s: Sched<T>, e: Event<T>)
    requires Inv(s) && Enabled(s, e)
    ensures Known(s)
    ensures Tasks(Step(s, e)) + multiset(Gone(s, e)) == Tasks(s) + multiset(Born(e))
  {
    hide Tasks, Call, Pick, Survivors, Inv, Destroyed;
    RunningKnown(s);
    match e
    case Tick => CallConserves(s);
    case Sleep(r) =>
      MarkKeepsInv(s, Some(r));
      CallConserves(s.(sleep := s.sleep[s.running[0] := Some(r)]));
      MarkConserves(s, Some(r));
    case Resume => MarkConserves(s, None);
    case Wake(r) => WakeConserves(s, r);
    case Fork(t) => ForkConserves(s, t);
    case Exit => ExitConserves(s);
    case Kill => KillConserves(s);
  }

  lemma MarkConserves<T>(s: Sched<T>, mark: Option<nat>)
    requires s.running != []
    ensures Tasks(s.(sleep := s.sleep[s.running[0] := mark])) == Tasks(s)
  {
  }

  /** The state after a run; events that are not enabled do not happen. */
  ghost function Run<T>(s: Sched<T>, es: seq<Event<T>>): Sched<T>
    decreases |es|
  {
    if es == [] then s
    else if Enabled(s, es[0]) && Known(s) then Run(Step(s, es[0]), es[1..])
    else Run(s, es[1..])
  }

  /** All tasks destroyed during a run, in order. */
  ghost function Killed<T>(s: Sched<T>, es: seq<Event<T>>): seq<T>
    decreases |es|
  {
    if es == [] then []
    else if Enabled(s, es[0]) && Known(s) then Gone(s, es[0]) + Killed(Step(s, es[0]), es[1..])
    else Killed(s, es[1..])
  }

  /** All tasks forked during a run. */
  ghost function Forked<T>(s: Sched<T>, es: seq<Event<T>>): seq<T>
    decreases |es|
  {
    if es == [] then []
    else if Enabled(s, es[0]) && Known(s) then Born(es[0]) + Forked(Step(s, es[0]), es[1..])
    else Forked(s, es[1..])
  }

  /** The invariant holds over every run. */
  lemma {:induction false} RunKeepsInv<T>(s: Sched<T>, es: seq<Event<T>>)
    requires Inv(s)
    ensures Inv(Run(s, es))
    decreases |es|
  {
    hide Inv, Step;
    if es != [] {
      if Enabled(s, es[0]) && Known(s) {
        StepKeepsInv(s, es[0]);
        RunKeepsInv(Step(s, es[0]), es[1..]);
      } else {
        RunKeepsInv(s, es[1..]);
      }
    }
  }

  lemma Balance<T>(a: multiset<T>, n: multiset<T>, r: multiset<T>, g: seq<T>, k: seq<T>, b: seq<T>, f: seq<T>)
    requires n + multiset(g) == a + multiset(b)
    requires r + multiset(k) == n + multiset(f)
    ensures r + multiset(g + k) == a + multiset(b + f)
  {
    assert r + multiset(g + k) == (r + multiset(k)) + multiset(g);
    assert a + multiset(b + f) == (a + multiset(b)) + multiset(f);
  }

  /** Over every run, the tasks that are left and the tasks destroyed are together the tasks that ever existed. */
  lemma {:induction false} RunConserves<T>(s: Sched<T>, es: seq<Event<T>>)
    requires Inv(s)
    ensures Tasks(Run(s, es)) + multiset(Killed(s, es)) == Tasks(s) + multiset(Forked(s, es))
    decreases |es|
  {
    hide Inv, Step, Tasks, Gone, Born;
    if es != [] {
      if Enabled(s, es[0]) && Known(s) {
        StepKeepsInv(s, es[0]);
        StepConserves(s, es[0]);
        var n := Step(s, es[0]);
        RunConserves(n, es[1..]);
        assert Killed(s, es) == Gone(s, es[0]) + Killed(n, es[1..]);
        assert Forked(s, es) == Born(es[0]) + Forked(n, es[1..]);
        assert Run(s, es) == Run(n, es[1..]);
        Balance(Tasks(s), Tasks(n), Tasks(Run(s, es)), Gone(s, es[0]), Killed(n, es[1..]), Born(es[0]),
                Forked(n, es[1..]));
      } else {
        RunConserves(s, es[1..]);
      }
    }
  }

  /** Tasks forked in a run are new and different from each other. */
  lemma {:induction false} ForkedNew<T>(s: Sched<T>, es: seq<Event<T>>)
    requires Inv(s)
    ensures forall t | t in multiset(Forked(s, es)) :: multiset(Forked(s, es))[t] == 1 && t !in s.ticks
    decreases |es|
  {
    if es != [] {
      if Enabled(s, es[0]) && Known(s) {
        StepKeepsInv(s, es[0]);
        var n := Step(s, es[0]);
        ForkedNew(n, es[1..]);
        KeysGrow(s, es[0]);
        hide Inv, Step, Tasks;
        assert Forked(s, es) == Born(es[0]) + Forked(n, es[1..]);
        OneMoreNew(s.ticks.Keys, n.ticks.Keys, Born(es[0]), Forked(n, es[1..]));
      } else {
        ForkedNew(s, es[1..]);
      }
    }
  }

  lemma OneMoreNew<T>(before: set<T>, after: set<T>, born: seq<T>, rest: seq<T>)
    requires before <= after && |born| <= 1 && forall t | t in born :: t in after && t !in before
    requires forall t | t in multiset(rest) :: multiset(rest)[t] == 1 && t !in after
    ensures forall t | t in multiset(born + rest) :: multiset(born + rest)[t] == 1 && t !in before
  {
    assert multiset(born + rest) == multiset(born) + multiset(rest);
    assert born != [] ==> born == [born[0]];
  }

  lemma KeysGrow<T>(s: Sched<T>, e: Event<T>)
    requires Inv(s) && Enabled(s, e) && Known(s)
    ensures s.ticks.Keys <= Step(s, e).ticks.Keys
    ensures e.Fork? ==> e.child in Step(s, e).ticks
  {
    hide Inv, Tasks, Pick, Survivors;
  }

  /** Exactly-once destruction: over every run no task is destroyed twice, and a destroyed task is in no list. */
  lemma DestroyedOnce<T>(s: Sched<T>, es: seq<Event<T>>)
    requires Inv(s)
    ensures forall t | t in multiset(Killed(s, es)) ::
              multiset(Killed(s, es))[t] == 1 && t !in Tasks(Run(s, es))
  {
    RunConserves(s, es);
    ForkedNew(s, es);
    hide Tasks, Killed, Forked, Run;
    var killed, forked, left := multiset(Killed(s, es)), multiset(Forked(s, es)), Tasks(Run(s, es));
    forall t | t in killed
      ensures killed[t] == 1 && t !in left
    {
      assert (left + killed)[t] == (Tasks(s) + forked)[t];
      assert t in forked ==> t !in Tasks(s);
    }
  }

  /**
    scheduler() calls at most this far away: k tasks ahead, each with a full slice, and the rest of
    the running one's.
   */
  function Distance<T>(s: Sched<T>, k: nat): nat
    requires Known(s)
  {
    k * (TIMETICKS + 1) + if s.running == [] then 1 else s.ticks[s.running[0]] + 1
  }

  /** Does the event call scheduler()? */
  predicate Calls<T>(e: Event<T>) {
    e.Tick? || e.Sleep?
  }

  lemma PositionOf<T>(s: Sched<T>, k: nat)
    requires Inv(s) && k < |s.ready|
    ensures Distance(s, k) <= (k + 1) * (TIMETICKS + 1)
  {
    if s.running != [] {
      RunningIsTask(s);
    }
    hide Tasks;
  }

  /** A switch moves every ready task one place forward, or runs it. */
  lemma SwitchAdvances<T>(s: Sched<T>, k: nat)
    requires Inv(s) && k < |s.ready|
    ensures Known(Switch(s))
    ensures k == 0 ==> s.ready[k] in Switch(s).running
    ensures 0 < k ==> k - 1 < |Switch(s).ready| && Switch(s).ready[k - 1] == s.ready[k]
    ensures 0 < k ==> Distance(Switch(s), k - 1) <= k * (TIMETICKS + 1)
  {
    SwitchFields(s);
    SwitchKeepsInv(s);
    if 0 < k {
      var n := Switch(s);
      assert n.ready[k - 1] == s.ready[1..][k - 1] == s.ready[k];
      PositionOf(n, k - 1);
    }
  }

  /** One call of scheduler() brings the task at position k strictly closer, or runs it. */
  lemma CallAdvances<T>(s: Sched<T>, k: nat)
    requires Inv(s) && k < |s.ready|
    ensures Known(Call(s))
    ensures var n := Call(s);
            || s.ready[k] in n.running
            || (k < |n.ready| && n.ready[k] == s.ready[k] && Distance(n, k) < Distance(s, k))
            || (0 < k && k - 1 < |n.ready| && n.ready[k - 1] == s.ready[k] && Distance(n, k - 1) < Distance(s, k))
  {
    hide Switch, Inv, Tasks;
    RunningKnown(s);
    CallKeepsInv(s);
    RunningKnown(Call(s));
    if s.running != [] && s.sleep[s.running[0]].None? {
      var cur := s.running[0];
      if s.ticks[cur] == 0 {
        TicksKeepInv(s, cur, TIMETICKS);
        SwitchAdvances(s.(ticks := s.ticks[cur := TIMETICKS]), k);
      }
    } else {
      SwitchAdvances(s, k);
    }
  }

  /** The task is at some position of the ready queue, at most this many scheduler() calls away from running. */
  ghost predicate Within<T>(s: Sched<T>, t: T, calls: nat) {
    Known(s) && exists k: nat :: k < |s.ready| && s.ready[k] == t && Distance(s, k) <= calls
  }

  /** No step moves a ready task further away, and a step that calls scheduler() moves it closer. */
  lemma StepAdvances<T>(s: Sched<T>, e: Event<T>, t: T, calls: nat)
    requires Inv(s) && Enabled(s, e) && Within(s, t, calls)
    ensures t in Step(s, e).running || (Calls(e) && 0 < calls && Within(Step(s, e), t, calls - 1))
                                    || (!Calls(e) && Within(Step(s, e), t, calls))
  {
    hide Tasks, Inv, Call, Pick, Survivors;
    var k: nat :| k < |s.ready| && s.ready[k] == t && Distance(s, k) <= calls;
    StepKeepsInv(s, e);
    RunningKnown(Step(s, e));
    match e
    case Tick => CallAdvances(s, k);
    case Sleep(r) =>
      MarkKeepsInv(s, Some(r));
      CallAdvances(s.(sleep := s.sleep[s.running[0] := Some(r)]), k);
    case Fork(c) =>
      assert s.running != [] ==> s.running[0] in s.ticks;
      assert Step(s, e).ready[k] == t;
    case Wake(r) => assert Step(s, e).ready[k] == t;
    case Exit => OneRunning(s);
    case _ =>
  }

  lemma OneRunning<T>(s: Sched<T>)
    requires Inv(s) && s.running != []
    ensures s.running[1..] == []
  {
  }

  /** How many events of a run call scheduler(). */
  ghost function CallCount<T>(s: Sched<T>, es: seq<Event<T>>): nat
    decreases |es|
  {
    if es == [] then 0
    else if Enabled(s, es[0]) && Known(s) then
      (if Calls(es[0]) then 1 else 0) + CallCount(Step(s, es[0]), es[1..])
    else CallCount(s, es[1..])
  }

  /**
    Bounded waiting: whatever else happens in the run, once it holds as many scheduler() calls
    as the task is away, the task has been running at some point of it.
   */
  lemma {:induction false} WaitsAtMost<T>(s: Sched<T>, es: seq<Event<T>>, t: T, calls: nat) returns (j: nat)
    requires Inv(s) && Within(s, t, calls) && calls <= CallCount(s, es)
    ensures j <= |es| && t in Run(s, es[..j]).running
    decreases |es|
  {
    hide Inv, Step, Calls;
    RunningKnown(s);
    assert 0 < calls;
    hide Within;
    if Enabled(s, es[0]) {
      StepAdvances(s, es[0], t, calls);
      StepKeepsInv(s, es[0]);
      var n := Step(s, es[0]);
      if t in n.running {
        j := 1;
        assert es[..1][1..] == [];
        assert Run(s, es[..1]) == Run(n, []);
      } else {
        var i := WaitsAtMost(n, es[1..], t, if Calls(es[0]) then calls - 1 else calls);
        j := i + 1;
        assert es[..j][0] == es[0] && es[..j][1..] == es[1..][..i];
      }
    } else {
      var i := WaitsAtMost(s, es[1..], t, calls);
      j := i + 1;
      assert es[..j][0] == es[0] && es[..j][1..] == es[1..][..i];
    }
  }

  /** The bound in numbers: position k needs at most (k + 1) * (TIMETICKS + 1) scheduler() calls. */
  lemma BoundedWaiting<T>(s: Sched<T>, es: seq<Event<T>>, k: nat) returns (j: nat)
    requires Inv(s) && k < |s.ready| && (k + 1) * (TIMETICKS + 1) <= CallCount(s, es)
    ensures j <= |es| && s.ready[k] in Run(s, es[..j]).running
  {
    PositionOf(s, k);
    assert Within(s, s.ready[k], (k + 1) * (TIMETICKS + 1));
    j := WaitsAtMost(s, es, s.ready[k], (k + 1) * (TIMETICKS + 1));
  }

  /** m calls of kill() with no new exits in between. */
  function Rounds<T>(q: seq<T>, m: nat): seq<T>
    decreases m
  {
    if m == 0 then q else Rounds(Survivors(q), m - 1)
  }

  /** The tasks those calls destroy, in order. */
  function RoundsDestroyed<T>(q: seq<T>, m: nat): seq<T>
    decreases m
  {
    if m == 0 then [] else Destroyed(q) + RoundsDestroyed(Survivors(q), m - 1)
  }

  /** floor(log2 n) + 1 for n > 0, and 0 for n == 0. */
  function BitLength(n: nat): nat {
    if n == 0 then 0 else 1 + BitLength(n / 2)
  }

  /** The expired list is empty after exactly floor(log2 n) + 1 calls of kill(), not before. */
  lemma {:induction false} RoundsEmpty<T>(q: seq<T>, m: nat)
    ensures Rounds(q, m) == [] <==> BitLength(|q|) <= m
    decreases m
  {
    KillSplits(q);
    if m != 0 {
      RoundsEmpty(Survivors(q), m - 1);
      assert |q| == 1 ==> Survivors(q) == [];
    }
  }

  /** By then each expired task has been destroyed, and each exactly once. */
  lemma {:induction false} RoundsDestroyAll<T>(q: seq<T>, m: nat)
    ensures multiset(Rounds(q, m)) + multiset(RoundsDestroyed(q, m)) == multiset(q)
    decreases m
  {
    hide Survivors, Destroyed;
    if m != 0 {
      KillSplits(q);
      RoundsDestroyAll(Survivors(q), m - 1);
      Balance(multiset(q), multiset(Survivors(q)), multiset(Rounds(q, m)), Destroyed(q),
              RoundsDestroyed(Survivors(q), m - 1), [], []);
    }
  }
}
