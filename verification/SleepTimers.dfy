/**
 The scheduler together with its sleep timers (kernel/task/timer.c:60-98): tasks put themselves to sleep
 until a time, and the clock wakes them. Runs of this system are runs of the scheduler in which the
 tasks woken by a tick are no longer free but those of the timers that are due.
 */
module SleepTimers {
  import opened Mlfq
  import opened MlfqRuns
  import opened MlfqEffects
  import opened MlfqFairness
  import opened Timers

  /** The scheduler and the active timers in the order in which they were armed. */
  datatype System = System(s: State, alarms: seq<Timer>)

  datatype Act =
    | Clock                 // clock_isr
    | Nap(until: nat)       // ms_sleep_until
    | Other(step: Step)     // any other operation of the scheduler

  function Due(alarms: seq<Timer>, now: nat): seq<Task> {
    if alarms == [] then []
    else (if alarms[0].time <= now then [alarms[0].thread] else []) + Due(alarms[1..], now)
  }

  function NotDue(alarms: seq<Timer>, now: nat): seq<Timer> {
    if alarms == [] then []
    else (if alarms[0].time <= now then [] else [alarms[0]]) + NotDue(alarms[1..], now)
  }

  /** The scheduler step of an act; `ms_sleep_until` takes none when all timers are in use. */
  function Moves(y: System, act: Act): seq<Step> {
    match act
    case Clock => [Tick(Due(y.alarms, y.s.time + 10))]
    case Nap(_) => if |y.alarms| < TIMER_COUNT then [Sleep] else []
    case Other(step) => [step]
  }

  ghost predicate Possible(y: System, act: Act) {
    && Legal(y.s, Moves(y, act)) && (act.Nap? ==> y.s.current != IDLE) && (act.Other? ==> !act.step.Tick?)
  }

  ghost function Do(y: System, act: Act): System
    requires Possible(y, act)
  {
    System(Run(y.s, Moves(y, act)),
           match act
           case Clock => NotDue(y.alarms, y.s.time + 10)
           case Nap(until) =>
             if |y.alarms| < TIMER_COUNT then y.alarms + [Timer(y.s.current, until)] else y.alarms
           case Other(_) => y.alarms)
  }

  ghost predicate AllPossible(y: System, acts: seq<Act>)
    decreases |acts|
  {
    acts == [] || (Possible(y, acts[0]) && AllPossible(Do(y, acts[0]), acts[1..]))
  }

  ghost function DoAll(y: System, acts: seq<Act>): System
    requires AllPossible(y, acts)
    decreases |acts|
  {
    if acts == [] then y else DoAll(Do(y, acts[0]), acts[1..])
  }

  /** The run of the scheduler inside a run of the system. */
  ghost function Trace(y: System, acts: seq<Act>): seq<Step>
    requires AllPossible(y, acts)
    decreases |acts|
  {
    if acts == [] then [] else Moves(y, acts[0]) + Trace(Do(y, acts[0]), acts[1..])
  }

  function Clocks(acts: seq<Act>): nat {
    if acts == [] then 0 else (if acts[0].Clock? then 1 else 0) + Clocks(acts[1..])
  }

  lemma {:induction false} DueMeans(alarms: seq<Timer>, now: nat, t: Task)
    ensures t in Due(alarms, now) <==> exists a :: a in alarms && a.thread == t && a.time <= now
  {
    if alarms != [] {
      DueMeans(alarms[1..], now, t);
      assert forall a :: a in alarms <==> a == alarms[0] || a in alarms[1..];
    }
  }

  lemma {:induction false} NotDueMeans(alarms: seq<Timer>, now: nat, a: Timer)
    ensures a in NotDue(alarms, now) <==> a in alarms && a.time > now
  {
    if alarms != [] {
      NotDueMeans(alarms[1..], now, a);
      assert a in alarms <==> a == alarms[0] || a in alarms[1..];
    }
  }

  // ---------------------------------------------- the scheduler inside the system

  /** A run of the system is a legal run of the scheduler with one tick for each clock interrupt. */
  lemma {:induction false} TraceIsRun(y: System, acts: seq<Act>)
    requires AllPossible(y, acts)
    ensures Legal(y.s, Trace(y, acts)) && DoAll(y, acts).s == Run(y.s, Trace(y, acts))
    ensures Ticks(Trace(y, acts)) == Clocks(acts)
    decreases |acts|
  {
    if acts != [] {
      hide Apply, Enabled, Due, NotDue;
      var z := Do(y, acts[0]);
      TraceIsRun(z, acts[1..]);
      JoinMove(y.s, Moves(y, acts[0]), Trace(z, acts[1..]));
    }
  }

  lemma JoinMove(s: State, first: seq<Step>, rest: seq<Step>)
    requires |first| <= 1 && Legal(s, first) && Legal(Run(s, first), rest)
    ensures Legal(s, first + rest) && Run(s, first + rest) == Run(Run(s, first), rest)
    ensures Ticks(first + rest) == Ticks(first) + Ticks(rest)
  {
    hide Apply, Enabled;
    if first == [] {
      assert first + rest == rest;
    } else {
      assert (first + rest)[0] == first[0] && (first + rest)[1..] == rest && first[1..] == [];
    }
  }

  lemma OneMove(s: State, step: Step)
    ensures Legal(s, [step]) <==> Enabled(s, step)
    ensures Enabled(s, step) ==> Run(s, [step]) == Apply(s, step)
  {
    assert [step][1..] == [];
    hide Apply, Enabled;
  }

  lemma QueuedRest(s: State, first: seq<Step>, rest: seq<Step>, n: nat)
    requires |first| <= 1 && Legal(s, first) && Legal(Run(s, first), rest)
    requires Legal(s, first + rest) && QueuedAtMost(s, first + rest, n)
    ensures QueuedAtMost(Run(s, first), rest, n)
  {
    hide Apply, Enabled, Schedules, PreSchedule;
    if first == [] {
      assert first + rest == rest;
    } else {
      assert (first + rest)[0] == first[0] && (first + rest)[1..] == rest && first[1..] == [];
    }
  }

  lemma DoKeeps(y: System, act: Act)
    requires Inv(y.s) && Possible(y, act)
    ensures Inv(Do(y, act).s) && Do(y, act).s.time == y.s.time + (if act.Clock? then 10 else 0)
  {
    hide Inv, Apply, Enabled, Due, NotDue;
    RunKeeps(y.s, Moves(y, act));
    if Moves(y, act) != [] {
      OneMove(y.s, Moves(y, act)[0]);
      StepTime(y.s, Moves(y, act)[0]);
    }
  }

  // ------------------------------------------------- a timer wakes its task in time

  /** Some state of the run with time at least `from` has `t` on the CPU. */
  ghost predicate RunsFrom(y: System, acts: seq<Act>, t: Task, from: nat)
    requires AllPossible(y, acts)
    decreases |acts|
  {
    || (y.s.current == t && y.s.time >= from)
    || (acts != [] && RunsFrom(Do(y, acts[0]), acts[1..], t, from))
  }

  lemma {:induction false} DispatchedRuns(y: System, acts: seq<Act>, t: Task, from: nat)
    requires Inv(y.s) && AllPossible(y, acts) && Legal(y.s, Trace(y, acts))
    requires y.s.time >= from && Dispatched(y.s, Trace(y, acts), t)
    ensures RunsFrom(y, acts, t, from)
    decreases |acts|
  {
    if acts != [] {
      hide Inv, Apply, Enabled, Due, NotDue;
      var first, z := Moves(y, acts[0]), Do(y, acts[0]);
      var rest := Trace(z, acts[1..]);
      DoKeeps(y, acts[0]);
      TraceIsRun(z, acts[1..]);
      SplitDispatch(y.s, first, rest, t);
      if z.s.current == t {
        assert RunsFrom(z, acts[1..], t, from);
      } else {
        DispatchedRuns(z, acts[1..], t, from);
      }
    }
  }

  lemma SplitDispatch(s: State, first: seq<Step>, rest: seq<Step>, t: Task)
    requires |first| <= 1 && Legal(s, first) && Legal(Run(s, first), rest)
    requires Legal(s, first + rest) && Dispatched(s, first + rest, t)
    ensures Run(s, first).current == t || Dispatched(Run(s, first), rest, t)
  {
    hide Apply, Enabled;
    if first == [] {
      assert first + rest == rest;
    } else {
      assert (first + rest)[0] == first[0] && (first + rest)[1..] == rest && first[1..] == [];
    }
  }

  /** A task that is ready now runs within 200 + 11n ticks. */
  lemma ReadyRuns(y: System, acts: seq<Act>, t: Task, n: nat)
    requires Inv(y.s) && AllPossible(y, acts) && Legal(y.s, Trace(y, acts)) && t in y.s.tasks && t != IDLE
    requires y.s.tasks[t].life == RUNNING
    requires n >= 1 && QueuedAtMost(y.s, Trace(y, acts), n) && Clocks(acts) >= 200 + 11 * n
    ensures RunsFrom(y, acts, t, y.s.time)
  {
    hide Inv, Trace, QueuedAtMost, Dispatched, Clocks;
    if y.s.current != t {
      TraceIsRun(y, acts);
      RunnableIsQueued(y.s, t);
      NoStarvationInTicks(y.s, Trace(y, acts), t, n);
      DispatchedRuns(y, acts, t, y.s.time);
    }
  }

  /** At the tick that finds the timer due, its task becomes runnable; until then the timer stays. */
  lemma AlarmStep(y: System, act: Act, a: Timer)
    requires Inv(y.s) && Possible(y, act) && a in y.alarms
    ensures if act.Clock? && a.time <= y.s.time + 10
            then a.thread in Do(y, act).s.tasks && Do(y, act).s.tasks[a.thread].life == RUNNING
            else a in Do(y, act).alarms
  {
    hide Inv, Apply, Due, NotDue;
    if act.Clock? {
      var ts := Due(y.alarms, y.s.time + 10);
      DueMeans(y.alarms, y.s.time + 10, a.thread);
      NotDueMeans(y.alarms, y.s.time + 10, a);
      OneMove(y.s, Tick(ts));
      TickEffect(y.s, ts);
    }
  }

  /**
   A timer set to time `a.time` gets its task the CPU at or after that time: `k` ticks, at least one, that
   reach the time and 200 + 11n more are enough, whatever else happens, with at most `n` tasks queued.
   */
  lemma {:induction false} AlarmRuns(y: System, acts: seq<Act>, a: Timer, k: nat, n: nat)
    requires Inv(y.s) && AllPossible(y, acts) && Legal(y.s, Trace(y, acts)) && a in y.alarms && a.thread != IDLE
    requires k >= 1 && y.s.time + 10 * k >= a.time && Clocks(acts) >= k + 200 + 11 * n
    requires n >= 1 && QueuedAtMost(y.s, Trace(y, acts), n)
    ensures RunsFrom(y, acts, a.thread, a.time)
    decreases |acts|
  {
    hide Inv, Possible, Do, QueuedAtMost, Legal;
    var act, z := acts[0], Do(y, acts[0]);
    DoKeeps(y, act);
    AlarmStep(y, act, a);
    RestOf(y, acts, n);
    if !act.Clock? {
      AlarmRuns(z, acts[1..], a, k, n);
    } else if a.time > y.s.time + 10 {
      AlarmRuns(z, acts[1..], a, k - 1, n);
    } else {
      ReadyRuns(z, acts[1..], a.thread, n);
      RunsEarlier(z, acts[1..], a.thread, z.s.time, a.time);
    }
  }

  lemma RestOf(y: System, acts: seq<Act>, n: nat)
    requires acts != [] && AllPossible(y, acts) && Legal(y.s, Trace(y, acts)) && QueuedAtMost(y.s, Trace(y, acts), n)
    ensures var z := Do(y, acts[0]); Legal(z.s, Trace(z, acts[1..])) && QueuedAtMost(z.s, Trace(z, acts[1..]), n)
  {
    hide QueuedAtMost, Apply, Enabled, Due, NotDue;
    var z := Do(y, acts[0]);
    TraceIsRun(z, acts[1..]);
    QueuedRest(y.s, Moves(y, acts[0]), Trace(z, acts[1..]), n);
  }

  lemma {:induction false} RunsEarlier(y: System, acts: seq<Act>, t: Task, from: nat, to: nat)
    requires AllPossible(y, acts) && RunsFrom(y, acts, t, from) && to <= from
    ensures RunsFrom(y, acts, t, to)
    decreases |acts|
  {
    hide Possible, Do;
    if !(y.s.current == t && y.s.time >= from) { RunsEarlier(Do(y, acts[0]), acts[1..], t, from, to); }
  }

  // -------------------------------------------------- and never before its time

  /** No timer of `t` is due before `from`, and `t` sleeps. */
  ghost predicate SleepsTill(y: System, t: Task, from: nat) {
    && t in y.s.tasks && y.s.tasks[t].life == SLEEPING
    && forall a :: a in y.alarms && a.thread == t ==> a.time >= from
  }

  /**
   A sleeping task whose timers are all set to `from` or later sleeps on as long as the time is before
   `from`, unless it is woken by hand.
   */
  lemma {:induction false} SleepsOn(y: System, acts: seq<Act>, t: Task, from: nat)
    requires Inv(y.s) && AllPossible(y, acts) && SleepsTill(y, t, from) && t != CLEANER
    requires Other(Wake(t)) !in acts && DoAll(y, acts).s.time < from
    ensures SleepsTill(DoAll(y, acts), t, from)
    decreases |acts|
  {
    if acts != [] {
      hide Inv, Possible, Do, SleepsTill;
      var z := Do(y, acts[0]);
      DoKeeps(y, acts[0]);
      TimeGoesOn(z, acts[1..]);
      StillAsleep(y, acts[0], t, from);
      SleepsOn(z, acts[1..], t, from);
    }
  }

  lemma {:induction false} TimeGoesOn(y: System, acts: seq<Act>)
    requires Inv(y.s) && AllPossible(y, acts)
    ensures DoAll(y, acts).s.time == y.s.time + 10 * Clocks(acts)
    decreases |acts|
  {
    if acts != [] {
      hide Inv, Possible, Do;
      DoKeeps(y, acts[0]);
      TimeGoesOn(Do(y, acts[0]), acts[1..]);
    }
  }

  lemma StillAsleep(y: System, act: Act, t: Task, from: nat)
    requires Inv(y.s) && Possible(y, act) && SleepsTill(y, t, from) && t != CLEANER
    requires act != Other(Wake(t)) && Do(y, act).s.time < from
    ensures SleepsTill(Do(y, act), t, from)
  {
    hide Inv, Apply, Due, NotDue;
    DoKeeps(y, act);
    CurrentRuns(y.s);
    if Moves(y, act) != [] { OneMove(y.s, Moves(y, act)[0]); }
    match act
    case Clock =>
      DueMeans(y.alarms, y.s.time + 10, t);
      TickEffect(y.s, Due(y.alarms, y.s.time + 10));
      forall a | a in NotDue(y.alarms, y.s.time + 10) ensures a in y.alarms {
        NotDueMeans(y.alarms, y.s.time + 10, a);
      }
    case Nap(_) => if |y.alarms| < TIMER_COUNT { SleepEffect(y.s); }
    case Other(step) => OtherAsleep(y.s, step, t);
  }

  lemma CurrentRuns(s: State)
    requires Inv(s)
    ensures s.current in s.tasks && s.tasks[s.current].life == RUNNING
  {
  }

  lemma OtherAsleep(s: State, step: Step, t: Task)
    requires Inv(s) && Enabled(s, step) && t in s.tasks && s.tasks[t].life == SLEEPING && t != CLEANER
    requires !step.Tick? && step != Wake(t)
    ensures t in Apply(s, step).tasks && Apply(s, step).tasks[t].life == SLEEPING
  {
    hide Base, Schedule;
    match step
    case Yield => ScheduleLists(s);
    case Sleep => SleepEffect(s);
    case Wake(_) =>
    case Exit => ExitEffect(s);
    case Create(_) =>
    case Reap => ReapEffect(s);
  }

  /**
   `ms_sleep_until`: in every run `pre` that ends before the time, the caller sleeps with its timer
   armed, unless it is woken by hand.
   */
  lemma NapLasts(y: System, until: nat, pre: seq<Act>, t: Task)
    requires Inv(y.s) && t == y.s.current && t != CLEANER && |y.alarms| < TIMER_COUNT
    requires Possible(y, Nap(until)) && AllPossible(Do(y, Nap(until)), pre)
    requires forall a :: a in y.alarms && a.thread == t ==> a.time >= until
    requires Other(Wake(t)) !in pre && DoAll(Do(y, Nap(until)), pre).s.time < until
    ensures var r := DoAll(Do(y, Nap(until)), pre);
      t in r.s.tasks && r.s.tasks[t].life == SLEEPING && t != r.s.current && Timer(t, until) in r.alarms
  {
    hide Inv, Apply, Enabled;
    var z := Do(y, Nap(until));
    DoKeeps(y, Nap(until));
    CurrentRuns(y.s);
    OneMove(y.s, Sleep);
    SleepEffect(y.s);
    assert SleepsTill(z, t, until);
    SleepsOn(z, pre, t, until);
    StaysArmed(z, pre, Timer(t, until));
    CurrentRuns(DoAll(z, pre).s);
  }

  /** A timer stays armed before its time. */
  lemma {:induction false} StaysArmed(y: System, acts: seq<Act>, a: Timer)
    requires Inv(y.s) && AllPossible(y, acts) && a in y.alarms && DoAll(y, acts).s.time < a.time
    ensures Inv(DoAll(y, acts).s) && a in DoAll(y, acts).alarms
    decreases |acts|
  {
    if acts != [] {
      hide Inv, Possible, Do;
      var z := Do(y, acts[0]);
      DoKeeps(y, acts[0]);
      TimeGoesOn(z, acts[1..]);
      AlarmStep(y, acts[0], a);
      StaysArmed(z, acts[1..], a);
    }
  }

  // ------------------------------------------------------ timers of live tasks

  /** Every active timer belongs to a task that has not exited. */
  ghost predicate Live(y: System) {
    forall a :: a in y.alarms ==> a.thread in y.s.tasks && y.s.tasks[a.thread].life != ZOMBIE
  }

  /** No task exits while a timer of it is active. */
  ghost predicate Orderly(y: System, act: Act) {
    act == Other(Exit) ==> forall a :: a in y.alarms ==> a.thread != y.s.current
  }

  /** As long as no task exits with an active timer, every timer is of a live task and the clock can tick. */
  lemma LiveTimers(y: System, act: Act)
    requires Inv(y.s) && Live(y) && Possible(y, act) && Orderly(y, act)
    ensures Live(Do(y, act)) && Possible(Do(y, act), Clock)
  {
    hide Inv, Apply, Due, NotDue;
    var z := Do(y, act);
    DoKeeps(y, act);
    CurrentRuns(y.s);
    forall a | a in z.alarms ensures a.thread in z.s.tasks && z.s.tasks[a.thread].life != ZOMBIE {
      if act.Clock? { NotDueMeans(y.alarms, y.s.time + 10, a); }
      if Moves(y, act) != [] {
        OneMove(y.s, Moves(y, act)[0]);
        NoNewZombie(y.s, Moves(y, act)[0], a.thread);
      }
    }
    ClockPossible(z);
  }

  lemma NoNewZombie(s: State, step: Step, t: Task)
    requires Inv(s) && Enabled(s, step) && t in s.tasks && s.tasks[t].life != ZOMBIE
    requires step == Exit ==> t != s.current
    ensures t in Apply(s, step).tasks && Apply(s, step).tasks[t].life != ZOMBIE
  {
    hide Base, Schedule, WakeAll;
    match step
    case Tick(ts) => TickEffect(s, ts);
    case Yield => ScheduleLists(s);
    case Sleep => SleepEffect(s);
    case Wake(_) =>
    case Exit => ExitEffect(s);
    case Create(_) =>
    case Reap => ReapEffect(s);
  }

  ghost predicate AllOrderly(y: System, acts: seq<Act>)
    requires AllPossible(y, acts)
    decreases |acts|
  {
    acts == [] || (Orderly(y, acts[0]) && AllOrderly(Do(y, acts[0]), acts[1..]))
  }

  /** Over whole runs: the clock interrupt never wakes a task that has exited or has been reaped. */
  lemma {:induction false} LiveRuns(y: System, acts: seq<Act>)
    requires Inv(y.s) && Live(y) && AllPossible(y, acts) && AllOrderly(y, acts)
    ensures Live(DoAll(y, acts)) && Possible(DoAll(y, acts), Clock)
    decreases |acts|
  {
    hide Inv, Live, Possible, Do, Orderly;
    if acts == [] {
      ClockPossible(y);
    } else {
      DoKeeps(y, acts[0]);
      LiveTimers(y, acts[0]);
      LiveRuns(Do(y, acts[0]), acts[1..]);
    }
  }

  lemma TickEnabled(s: State, ts: seq<Task>)
    requires Inv(s) && forall t :: t in ts ==> t in s.tasks && s.tasks[t].life != ZOMBIE
    ensures Enabled(s, Tick(ts))
  {
  }

  lemma ClockPossible(y: System)
    requires Inv(y.s) && Live(y)
    ensures Possible(y, Clock)
  {
    hide Due, Inv, Enabled, Apply;
    var ts := Due(y.alarms, y.s.time + 10);
    forall t | t in ts ensures t in y.s.tasks && y.s.tasks[t].life != ZOMBIE {
      DueMeans(y.alarms, y.s.time + 10, t);
    }
    TickEnabled(y.s, ts);
    OneMove(y.s, Tick(ts));
  }

  // ------------------------------------------------------- the pool as a list

  /** The active timers of a pool, in ring order. */
  ghost function Alarms(active: seq<nat>, timers: map<nat, Timer>): seq<Timer>
    requires forall n :: n in active ==> n in timers
  {
    seq(|active|, i requires 0 <= i < |active| => timers[active[i]])
  }

  /** What the walk over the ring wakes and keeps is what is due and what is not. */
  lemma {:induction false} WokenIsDue(active: seq<nat>, timers: map<nat, Timer>, now: nat)
    requires forall n :: n in active ==> n in timers
    ensures Woken(active, timers, now) == Due(Alarms(active, timers), now)
    ensures forall n :: n in Pending(active, timers, now) ==> n in active
    ensures Alarms(Pending(active, timers, now), timers) == NotDue(Alarms(active, timers), now)
  {
    if active != [] {
      var rest := active[1..];
      WokenIsDue(rest, timers, now);
      var all := Alarms(active, timers);
      assert all[0] == timers[active[0]] && all[1..] == Alarms(rest, timers);
      AlarmsJoin(active[..1], Pending(rest, timers, now), timers);
      assert Alarms(active[..1], timers) == [all[0]];
    }
  }

  lemma AlarmsJoin(a: seq<nat>, b: seq<nat>, timers: map<nat, Timer>)
    requires (forall n :: n in a ==> n in timers) && (forall n :: n in b ==> n in timers)
    ensures forall n :: n in a + b ==> n in timers
    ensures Alarms(a + b, timers) == Alarms(a, timers) + Alarms(b, timers)
  {
  }

  /** A newly armed timer goes to the end of the list. */
  lemma ArmedLast(active: seq<nat>, timers: map<nat, Timer>, n: nat, a: Timer)
    requires (forall m :: m in active ==> m in timers) && n !in active
    ensures forall m :: m in active + [n] ==> m in timers[n := a]
    ensures Alarms(active + [n], timers[n := a]) == Alarms(active, timers) + [a]
  {
  }
}
