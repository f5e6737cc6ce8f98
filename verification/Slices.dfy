/** kern/sched/tasks.c: what a run gives each task: its time slice, and the sleep that ends with its wakeup. */
module Slices {
  import opened Scheduling
  import opened Wrappers

  /** A task that is ready and not marked asleep has its whole slice ahead. */
  ghost predicate FullSlices<T>(s: Sched<T>) {
    forall t | t in s.ready && t in s.sleep && s.sleep[t] == None :: t in s.ticks && s.ticks[t] == TIMETICKS
  }

  /** The task runs, and nothing asks it to sleep. */
  ghost predicate RunsAwake<T>(s: Sched<T>, t: T) {
    s.running == [t] && t in s.sleep && s.sleep[t] == None && t in s.ticks
  }

  /** The running task neither sleeps nor exits. */
  predicate Quiet<T>(es: seq<Event<T>>) {
    forall i | 0 <= i < |es| :: !es[i].Sleep? && !es[i].Exit?
  }

  function TickCount<T>(es: seq<Event<T>>): nat {
    if es == [] then 0 else (if es[0].Tick? then 1 else 0) + TickCount(es[1..])
  }

  /** The tasks that wait are apart from the one that runs. */
  lemma RunningApart<T>(s: Sched<T>, t: T)
    requires Inv(s) && t in s.running
    ensures t !in s.ready && t !in s.sleeping && t !in s.expired
  {
    assert t in multiset(s.running);
    assert t in s.ready ==> t in multiset(s.ready);
    assert t in s.sleeping ==> t in multiset(s.sleeping);
    assert t in s.expired ==> t in multiset(s.expired);
    assert Tasks(s)[t] == 1;
  }

  lemma SleeperApart<T>(s: Sched<T>, t: T)
    requires Inv(s) && t in s.sleeping
    ensures t !in s.ready && t !in s.running && t !in s.expired && t in s.ticks && t in s.sleep && s.sleep[t].Some?
  {
    assert t in multiset(s.sleeping);
    assert t in s.ready ==> t in multiset(s.ready);
    assert t in s.running ==> t in multiset(s.running);
    assert t in s.expired ==> t in multiset(s.expired);
    assert Tasks(s)[t] == 1;
  }

  lemma StepKeepsFull<T>(s: Sched<T>, e: Event<T>)
    requires Inv(s) && FullSlices(s) && Enabled(s, e)
    ensures Known(s) && FullSlices(Step(s, e))
  {
    hide Tasks, Pick, Survivors, Inv, Call;
    RunningKnown(s);
    if s.running != [] {
      RunningApart(s, s.running[0]);
    }
    match e
    case Tick => CallKeepsFull(s);
    case Sleep(r) =>
      MarkKeepsInv(s, Some(r));
      CallKeepsFull(s.(sleep := s.sleep[s.running[0] := Some(r)]));
    case Wake(r) => PickedWait(s.sleeping, s.sleep, r, true);
    case _ =>
  }

  /** A mark of the running task, set or cleared, is none of a ready one. */
  lemma MarkKeepsFull<T>(s: Sched<T>, mark: Option<nat>)
    requires Inv(s) && FullSlices(s) && s.running != []
    ensures FullSlices(s.(sleep := s.sleep[s.running[0] := mark]))
  {
    RunningApart(s, s.running[0]);
    hide Tasks, Inv;
  }

  lemma CallKeepsFull<T>(s: Sched<T>)
    requires Inv(s) && FullSlices(s)
    ensures Known(s) && FullSlices(Call(s))
  {
    hide Tasks, Inv;
    RunningKnown(s);
    if s.running != [] {
      RunningApart(s, s.running[0]);
    }
  }

  /** Over every run, a ready task that is awake has its whole slice. */
  lemma {:induction false} RunKeepsFull<T>(s: Sched<T>, es: seq<Event<T>>)
    requires Inv(s) && FullSlices(s)
    ensures FullSlices(Run(s, es))
    decreases |es|
  {
    hide Inv, Step, FullSlices;
    if es != [] {
      if Enabled(s, es[0]) && Known(s) {
        StepKeepsInv(s, es[0]);
        StepKeepsFull(s, es[0]);
        RunKeepsFull(Step(s, es[0]), es[1..]);
      } else {
        RunKeepsFull(s, es[1..]);
      }
    }
  }

  /** One event while the running task has ticks left. */
  lemma OneQuiet<T>(s: Sched<T>, e: Event<T>, t: T)
    requires Inv(s) && RunsAwake(s, t) && Enabled(s, e) && !e.Sleep? && !e.Exit?
    requires e.Tick? ==> 0 < s.ticks[t]
    ensures Known(s) && RunsAwake(Step(s, e), t)
    ensures Step(s, e).ticks[t] == if e.Tick? then s.ticks[t] - 1 else s.ticks[t]
  {
    hide Inv, Tasks, Pick, Survivors;
    RunningKnown(s);
  }

  /** The running task runs on for as many ticks as its slice has left, whatever the others do. */
  lemma {:induction false} SliceLasts<T>(s: Sched<T>, es: seq<Event<T>>, t: T)
    requires Inv(s) && RunsAwake(s, t) && Quiet(es) && TickCount(es) <= s.ticks[t]
    ensures RunsAwake(Run(s, es), t) && Run(s, es).ticks[t] == s.ticks[t] - TickCount(es)
    decreases |es|
  {
    hide Inv, Step, RunsAwake;
    if es != [] {
      assert Quiet(es[1..]) by {
        assert forall i | 0 <= i < |es[1..]| :: es[1..][i] == es[i + 1];
      }
      RunningKnown(s);
      if Enabled(s, es[0]) {
        OneQuiet(s, es[0], t);
        StepKeepsInv(s, es[0]);
        SliceLasts(Step(s, es[0]), es[1..], t);
      } else {
        SliceLasts(s, es[1..], t);
      }
    }
  }

  /** Runs can be put together. */
  lemma {:induction false} RunConcat<T>(s: Sched<T>, a: seq<Event<T>>, b: seq<Event<T>>)
    ensures Run(s, a + b) == Run(Run(s, a), b)
    decreases |a|
  {
    hide Step, Enabled, Known;
    if a == [] {
      assert a + b == b;
    } else {
      assert (a + b)[0] == a[0] && (a + b)[1..] == a[1..] + b;
      if Enabled(s, a[0]) && Known(s) {
        RunConcat(Step(s, a[0]), a[1..], b);
      } else {
        RunConcat(s, a[1..], b);
      }
    }
  }

  lemma RunOne<T>(s: Sched<T>, e: Event<T>)
    requires Enabled(s, e) && Known(s)
    ensures Run(s, [e]) == Step(s, e)
  {
    hide Step, Enabled, Known;
    assert [e][1..] == [];
    assert Run(Step(s, e), []) == Step(s, e);
  }

  /** At the tick after the last one of its slice, the task goes behind the others with a whole slice. */
  lemma SliceEnds<T>(s: Sched<T>, t: T)
    requires Inv(s) && RunsAwake(s, t) && s.ticks[t] == 0
    ensures var n := Run(s, [Event.Tick]);
            && t in n.ticks && n.ticks[t] == TIMETICKS && n.sleep == s.sleep
            && n.sleeping == s.sleeping && n.expired == s.expired
            && (if s.ready == [] then n.running == [t] && n.ready == []
                else n.running == [s.ready[0]] && n.ready == s.ready[1..] + [t])
  {
    hide Inv, Tasks;
    RunningKnown(s);
    RunOne(s, Event.Tick);
    assert s.running[1..] == [];
  }

  /**
    A whole turn, over every run: a task that gets the processor from one whose slice is over runs for
    TIMETICKS ticks, and the next tick, not an earlier one, puts it behind the others with a whole slice again.
   */
  lemma TurnLasts<T>(s: Sched<T>, t: T, es: seq<Event<T>>)
    requires Inv(s) && FullSlices(s) && RunsAwake(s, t) && s.ticks[t] == 0
    requires s.ready != [] && s.ready[0] in s.sleep && s.sleep[s.ready[0]] == None
    requires Quiet(es) && TickCount(es) <= TIMETICKS
    ensures var u, n := s.ready[0], Run(s, [Event.Tick] + es);
            && RunsAwake(n, u) && n.ticks[u] == TIMETICKS - TickCount(es)
            && (TickCount(es) == TIMETICKS && n.ready != [] ==>
                  var m := Run(s, [Event.Tick] + es + [Event.Tick]);
                  && m.running == [n.ready[0]] && m.ready == n.ready[1..] + [u]
                  && u in m.ticks && m.ticks[u] == TIMETICKS)
  {
    var u := s.ready[0];
    SliceEnds(s, t);
    RunningApart(s, t);
    TurnStarts(s, t);
    var f := Run(s, [Event.Tick]);
    RunKeepsInv(s, [Event.Tick]);
    SliceLasts(f, es, u);
    RunConcat(s, [Event.Tick], es);
    RunKeepsInv(f, es);
    RunConcat(s, [Event.Tick] + es, [Event.Tick]);
    if TickCount(es) == TIMETICKS {
      SliceEnds(Run(f, es), u);
    }
    hide Inv, Run;
  }

  lemma TurnStarts<T>(s: Sched<T>, t: T)
    requires Inv(s) && FullSlices(s) && RunsAwake(s, t) && s.ticks[t] == 0
    requires s.ready != [] && s.ready[0] in s.sleep && s.sleep[s.ready[0]] == None
    ensures var f := Run(s, [Event.Tick]); RunsAwake(f, s.ready[0]) && f.ticks[s.ready[0]] == TIMETICKS
  {
    RunningApart(s, t);
    hide Inv, Tasks;
    RunningKnown(s);
    RunOne(s, Event.Tick);
    assert s.running[1..] == [];
  }

  /** A sleeper stays where it is, and stays marked, until its own resource is woken. */
  lemma {:induction false} SleepsOn<T>(s: Sched<T>, es: seq<Event<T>>, t: T, r: nat)
    requires Inv(s) && t in s.sleeping && s.sleep[t] == Some(r)
    requires forall i | 0 <= i < |es| :: es[i] != Wake(r)
    ensures var n := Run(s, es); t in n.sleeping && t in n.sleep && n.sleep[t] == Some(r)
    decreases |es|
  {
    hide Inv, Step;
    SleeperApart(s, t);
    if es != [] {
      assert forall i | 0 <= i < |es[1..]| :: es[1..][i] == es[i + 1];
      RunningKnown(s);
      if Enabled(s, es[0]) {
        SleeperStays(s, es[0], t, r);
        StepKeepsInv(s, es[0]);
        SleepsOn(Step(s, es[0]), es[1..], t, r);
      } else {
        SleepsOn(s, es[1..], t, r);
      }
    }
  }

  lemma SleeperStays<T>(s: Sched<T>, e: Event<T>, t: T, r: nat)
    requires Inv(s) && t in s.sleeping && t in s.sleep && s.sleep[t] == Some(r) && Enabled(s, e) && e != Wake(r)
    ensures Known(s) && t in Step(s, e).sleeping && t in Step(s, e).sleep && Step(s, e).sleep[t] == Some(r)
  {
    hide Inv, Tasks, Pick, Survivors;
    SleeperApart(s, t);
    RunningKnown(s);
    if e.Wake? {
      InPick(s.sleeping, s.sleep, e.w, false, t);
    }
  }

  lemma {:induction false} InPick<T>(q: seq<T>, sleep: map<T, Option<nat>>, r: nat, hit: bool, t: T)
    requires t in q && (t in sleep && sleep[t] == Some(r)) == hit
    ensures t in Pick(q, sleep, r, hit)
  {
    if q[0] != t {
      InPick(q[1..], sleep, r, hit, t);
    }
  }

  /**
    sleep(r) with another task ready: over every run without a wakeup of r, the task is on the sleeping
    list, and the first such wakeup makes it ready.
   */
  lemma SleepsUntilWoken<T>(s: Sched<T>, t: T, r: nat, es: seq<Event<T>>)
    requires Inv(s) && s.running == [t] && s.ready != []
    requires forall i | 0 <= i < |es| :: es[i] != Wake(r)
    ensures var n := Run(s, [Event.Sleep(r)] + es);
            t in n.sleeping && t in n.sleep && n.sleep[t] == Some(r)
    ensures var m := Run(s, [Event.Sleep(r)] + es + [Wake(r)]); t in m.ready && t !in m.sleeping
  {
    FallsAsleep(s, t, r);
    var f := Run(s, [Event.Sleep(r)]);
    RunKeepsInv(s, [Event.Sleep(r)]);
    SleepsOn(f, es, t, r);
    RunConcat(s, [Event.Sleep(r)], es);
    var n := Run(f, es);
    RunKeepsInv(f, es);
    RunConcat(s, [Event.Sleep(r)] + es, [Wake(r)]);
    WakesUp(n, t, r);
    hide Inv, Run;
  }

  lemma FallsAsleep<T>(s: Sched<T>, t: T, r: nat)
    requires Inv(s) && s.running == [t] && s.ready != []
    ensures var f := Run(s, [Event.Sleep(r)]); t in f.sleeping && t in f.sleep && f.sleep[t] == Some(r)
  {
    hide Inv, Tasks;
    RunningKnown(s);
    RunOne(s, Event.Sleep(r));
  }

  lemma WakesUp<T>(n: Sched<T>, t: T, r: nat)
    requires Inv(n) && t in n.sleeping && t in n.sleep && n.sleep[t] == Some(r)
    ensures var m := Run(n, [Wake(r)]); t in m.ready && t !in m.sleeping
  {
    RunningKnown(n);
    RunOne(n, Wake(r));
    InPick(n.sleeping, n.sleep, r, true, t);
    PickedWait(n.sleeping, n.sleep, r, false);
    hide Inv, Pick;
  }

  /** sleep(r) with nothing ready: the task goes on running, with the mark. */
  lemma SleepsAlone<T>(s: Sched<T>, t: T, r: nat)
    requires Inv(s) && s.running == [t] && s.ready == []
    ensures var f := Run(s, [Event.Sleep(r)]); f.running == [t] && t in f.sleep && f.sleep[t] == Some(r)
  {
    hide Inv, Tasks;
    RunningKnown(s);
    RunOne(s, Event.Sleep(r));
  }

  /** A task without a mark is never put to sleep while nobody calls sleep(). */
  lemma {:induction false} AwakeStaysUp<T>(s: Sched<T>, es: seq<Event<T>>, t: T)
    requires Inv(s) && t in s.sleep && s.sleep[t] == None && forall i | 0 <= i < |es| :: !es[i].Sleep?
    ensures var n := Run(s, es); t in n.sleep && n.sleep[t] == None && t !in n.sleeping
    decreases |es|
  {
    hide Step;
    if es != [] {
      assert forall i | 0 <= i < |es[1..]| :: es[1..][i] == es[i + 1];
      hide Inv;
      RunningKnown(s);
      if Enabled(s, es[0]) {
        MarkStays(s, es[0], t);
        StepKeepsInv(s, es[0]);
        AwakeStaysUp(Step(s, es[0]), es[1..], t);
      } else {
        AwakeStaysUp(s, es[1..], t);
      }
    }
  }

  lemma MarkStays<T>(s: Sched<T>, e: Event<T>, t: T)
    requires Inv(s) && t in s.sleep && s.sleep[t] == None && Enabled(s, e) && !e.Sleep?
    ensures Known(s) && t in Step(s, e).sleep && Step(s, e).sleep[t] == None
  {
    hide Inv, Tasks, Pick, Survivors;
    RunningKnown(s);
  }

  /** The end of sleep(): from there on the task stays up until the next call of sleep(). */
  lemma ResumedStaysUp<T>(s: Sched<T>, t: T, es: seq<Event<T>>)
    requires Inv(s) && s.running == [t] && forall i | 0 <= i < |es| :: !es[i].Sleep?
    ensures t !in Run(s, [Event.Resume] + es).sleeping
  {
    RunningKnown(s);
    RunOne(s, Event.Resume);
    RunKeepsInv(s, [Event.Resume]);
    RunConcat(s, [Event.Resume], es);
    AwakeStaysUp(Run(s, [Event.Resume]), es, t);
    hide Inv, Run;
  }

  /** A forked task is never put to sleep while nobody calls sleep(): it waits for its turn, and gets it. */
  lemma ForkedStaysUp<T>(s: Sched<T>, c: T, es: seq<Event<T>>)
    requires Inv(s) && Enabled(s, Fork(c)) && forall i | 0 <= i < |es| :: !es[i].Sleep?
    ensures Run(s, [Fork(c)]).ready == s.ready + [c]
    ensures c !in Run(s, [Fork(c)] + es).sleeping
  {
    RunningKnown(s);
    RunOne(s, Fork(c));
    RunKeepsInv(s, [Fork(c)]);
    RunConcat(s, [Fork(c)], es);
    AwakeStaysUp(Run(s, [Fork(c)]), es, c);
    hide Inv, Run;
  }

  lemma ExpiredApart<T>(s: Sched<T>, t: T)
    requires Inv(s) && t in s.expired
    ensures t !in s.ready && t !in s.running && t !in s.sleeping && t in s.ticks
  {
    assert t in multiset(s.expired);
    assert t in s.ready ==> t in multiset(s.ready);
    assert t in s.running ==> t in multiset(s.running);
    assert t in s.sleeping ==> t in multiset(s.sleeping);
    assert Tasks(s)[t] == 1;
  }

  /** A task that is out: it has a PCB and is in none of the three queues it could come back from. */
  ghost predicate Out<T>(s: Sched<T>, t: T) {
    t !in s.ready && t !in s.running && t !in s.sleeping && t in s.ticks
  }

  lemma StaysOut<T>(s: Sched<T>, e: Event<T>, t: T)
    requires Inv(s) && Out(s, t) && Enabled(s, e)
    ensures Known(s) && Out(Step(s, e), t)
  {
    hide Inv, Tasks, Pick, Survivors;
    RunningKnown(s);
    if e.Wake? {
      NotInPick(s.sleeping, s.sleep, e.w, true, t);
      NotInPick(s.sleeping, s.sleep, e.w, false, t);
    }
  }

  lemma {:induction false} NotInPick<T>(q: seq<T>, sleep: map<T, Option<nat>>, r: nat, hit: bool, t: T)
    requires t !in q
    ensures t !in Pick(q, sleep, r, hit)
  {
    if q != [] {
      NotInPick(q[1..], sleep, r, hit, t);
    }
  }

  lemma {:induction false} RunStaysOut<T>(s: Sched<T>, es: seq<Event<T>>, t: T)
    requires Inv(s) && Out(s, t)
    ensures Out(Run(s, es), t)
    decreases |es|
  {
    hide Inv, Step, Out;
    if es != [] {
      RunningKnown(s);
      if Enabled(s, es[0]) {
        StaysOut(s, es[0], t);
        StepKeepsInv(s, es[0]);
        RunStaysOut(Step(s, es[0]), es[1..], t);
      } else {
        RunStaysOut(s, es[1..], t);
      }
    }
  }

  /** A task that exits is expired, and over every run it never is ready, running or asleep again. */
  lemma ExitIsFinal<T>(s: Sched<T>, t: T, es: seq<Event<T>>)
    requires Inv(s) && s.running == [t]
    ensures Run(s, [Event.Exit]).expired == s.expired + [t]
    ensures var n := Run(s, [Event.Exit] + es); t !in n.ready && t !in n.running && t !in n.sleeping
  {
    RunningApart(s, t);
    RunningKnown(s);
    RunOne(s, Event.Exit);
    RunKeepsInv(s, [Event.Exit]);
    var f := Run(s, [Event.Exit]);
    ExpiredApart(f, t);
    RunConcat(s, [Event.Exit], es);
    RunStaysOut(f, es, t);
    hide Inv, Run;
  }

  /**
    A task that was woken and runs again has its mark until the end of sleep(). A tick before that sends
    it back to the sleeping list, although nobody will wake it again: exactly when a task is ready.
   */
  lemma MarkedGoesBackIff<T>(s: Sched<T>, t: T)
    requires Inv(s) && s.running == [t]
    ensures t in Run(s, [Event.Tick]).sleeping <==> t in s.sleep && s.sleep[t].Some? && s.ready != []
  {
    RunningApart(s, t);
    hide Inv, Tasks;
    RunningKnown(s);
    RunOne(s, Event.Tick);
  }

  /** The run below: tasks 1, 2 and 3 go to sleep one after the other, 1 and 2 are woken. */
  function Marks(a: Option<nat>, b: Option<nat>, c: Option<nat>): map<nat, Option<nat>> {
    map[1 := a, 2 := b, 3 := c]
  }

  function Three(ready: seq<nat>, running: seq<nat>, sleeping: seq<nat>, marks: map<nat, Option<nat>>): Sched<nat> {
    Sched(ready, running, sleeping, [], map[1 := 0, 2 := TIMETICKS, 3 := TIMETICKS], marks)
  }

  const START: Sched<nat> := Three([2, 3], [1], [], Marks(None, None, None))
  const ASLEEP1: Sched<nat> := Three([3], [2], [1], Marks(Some(7), None, None))
  const WOKEN1: Sched<nat> := Three([3, 1], [2], [], Marks(Some(7), None, None))
  const ASLEEP2: Sched<nat> := Three([1], [3], [2], Marks(Some(7), Some(8), None))
  const ASLEEP3: Sched<nat> := Three([], [1], [2, 3], Marks(Some(7), Some(8), Some(9)))
  const WOKEN2: Sched<nat> := Three([2], [1], [3], Marks(Some(7), Some(8), Some(9)))

  lemma StartOk()
    ensures Inv(START) && FullSlices(START)
  {
    assert Tasks(START) == multiset{1, 2, 3};
  }

  lemma FirstHalf()
    ensures Run(START, [Event.Sleep(7)]) == ASLEEP1 && Run(ASLEEP1, [Wake(7)]) == WOKEN1
    ensures Run(WOKEN1, [Event.Sleep(8)]) == ASLEEP2
  {
    RunOne(START, Event.Sleep(7));
    RunOne(ASLEEP1, Wake(7));
    RunOne(WOKEN1, Event.Sleep(8));
    var q: seq<nat> := [1];
    assert q[1..] == [];
  }

  lemma SecondHalf()
    ensures Run(ASLEEP2, [Event.Sleep(9)]) == ASLEEP3 && Run(ASLEEP3, [Wake(8)]) == WOKEN2
    ensures WOKEN2.running == [1] && 1 in Run(WOKEN2, [Event.Tick]).sleeping
  {
    RunOne(ASLEEP2, Event.Sleep(9));
    RunOne(ASLEEP3, Wake(8));
    RunOne(WOKEN2, Event.Tick);
    var q: seq<nat> := [2, 3];
    assert q[1..] == [3] && q[1..][1..] == [];
  }

  /** A wakeup that is lost: 1 is woken and runs, but a tick comes before it has cleared its mark. */
  lemma LostWakeup()
    ensures Inv(START) && FullSlices(START)
    ensures var es := [Event.Sleep(7)] + [Wake(7)] + [Event.Sleep(8)] + [Event.Sleep(9)] + [Wake(8)];
            Run(START, es).running == [1] && 1 in Run(START, es + [Event.Tick]).sleeping
  {
    hide Run, Inv;
    StartOk();
    FirstHalf();
    SecondHalf();
    var a: seq<Event<nat>> := [Event.Sleep(7)];
    RunConcat(START, a, [Wake(7)]);
    RunConcat(START, a + [Wake(7)], [Event.Sleep(8)]);
    RunConcat(START, a + [Wake(7)] + [Event.Sleep(8)], [Event.Sleep(9)]);
    RunConcat(START, a + [Wake(7)] + [Event.Sleep(8)] + [Event.Sleep(9)], [Wake(8)]);
    RunConcat(START, a + [Wake(7)] + [Event.Sleep(8)] + [Event.Sleep(9)] + [Wake(8)], [Event.Tick]);
  }
}
