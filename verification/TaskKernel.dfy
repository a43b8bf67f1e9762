/**
 The scheduling operations in place: `schedule`, `task_sleep`, `task_wakeup`, `task_exit`,
 the creation and reaping of tasks and the clock tick, on the task fields, the pointer rings and
 the timers. Each one refines the corresponding step of the state machine in `Mlfq`.
 */
module TaskKernel {
  import Seqs
  import opened Rings
  import opened Scheduler
  import opened Mlfq
  import opened MlfqEffects
  import Timers
  import opened SleepTimers

  class Kernel {
    const ready: ReadyQueues
    var life: map<Task, Life>      // the `state` field of each task
    var slice: map<Task, nat>      // the `timer_slice` field; priorities are in `ready.prio`
    var current: Task
    var blocked: seq<Task>
    var finished: seq<Task>
    var time: nat                  // G_TIME_SINCE_BOOT
    var boostAt: nat               // update_priority_time

    ghost predicate Shape()
      reads this, ready
    {
      && ready.Valid() && slice.Keys == life.Keys && ready.prio.Keys == life.Keys
      && forall i :: 0 <= i < 4 ==> ready.heads[i] !in life
    }

    ghost function S(): State
      requires slice.Keys == life.Keys && ready.prio.Keys == life.Keys
      reads this, ready
    {
      State(Tcbs(life, ready.prio, slice), ready.q, current, blocked, finished, time, boostAt)
    }

    ghost predicate Valid()
      reads this, ready
    {
      Shape() && Base(S())
    }

    /**
     The state once the boot code has created its three tasks and the idle task has left the
     ready queue for good: `init` runs and the cleaner is ready.
     */
    constructor (heads: seq<Node>)
      requires |heads| == 4 && Seqs.NoDup(heads) && forall i :: 0 <= i < 4 ==> heads[i] > CLEANER
      ensures Valid() && Inv(S()) && current == INIT && fresh(ready)
      ensures ready.heads == heads && S().tasks == BOOT_TASKS && blocked == [] && finished == [] && time == 0
    {
      var lives, prio, slices := BootFields();
      life, slice := lives, slices;
      current := INIT;
      blocked := [];
      finished := [];
      time := 0;
      boostAt := BOOST_INTERVAL;
      hide Inv, Base, Rings4, Ranked, Tcbs;
      ready := new ReadyQueues(heads, prio);
      new;
      ready.SchedTaskAdd(CLEANER);
      assert ready.q[3] == [CLEANER];
      assert ready.q == [[], [], [], [CLEANER]];
      BootInv(S());
      InvBase(S());
    }

    /** `sched_task_add` for a task that is on no ready queue. */
    method Add(t: Task)
      requires Shape() && t in life && ready.prio[t] < 4 && forall i :: 0 <= i < 4 ==> t !in ready.q[i]
      modifies ready
      ensures Shape() && S() == old(S()).(queue := Enqueue(old(ready.q), t, old(ready.prio[t])))
      ensures ready.prio == old(ready.prio)
    {
      ready.SchedTaskAdd(t);
    }

    /** `task_wakeup`: a sleeper leaves its block list for the end of the queue of its priority. */
    method TaskWakeup(t: Task)
      requires Valid() && t in life && life[t] != ZOMBIE && (t == current ==> life[t] == RUNNING)
      modifies this`life, this`blocked, ready
      ensures Valid() && S() == WakeUp(old(S()), t)
      ensures life == old(life)[t := RUNNING] && ready.prio == old(ready.prio)
      ensures old(life[t]) == RUNNING ==> blocked == old(blocked) && ready.q == old(ready.q)
      ensures old(life[t]) == SLEEPING ==> TakenOut(old(blocked), t, blocked) && t !in blocked && ready.prio[t] < 4
      ensures old(life[t]) == SLEEPING ==> ready.q[ready.prio[t]] == old(ready.q)[ready.prio[t]] + [t]
      ensures old(life[t]) == SLEEPING ==>
                forall i :: 0 <= i < 4 && i != ready.prio[t] ==> ready.q[i] == old(ready.q)[i]
    {
      hide Base, Rings4, Ranked, Tcbs, TakenOut;
      ghost var s := S();
      TcbKeys(life, ready.prio, slice);
      InBase(s, t);
      WakeKeeps(s, t);
      if life[t] != RUNNING {
        SleeperIsBlocked(s, t);
        Unblocked(s, t);
        TcbLife(life, ready.prio, slice, t, RUNNING);
        life := life[t := RUNNING];
        blocked := Seqs.Remove(blocked, t);
        Add(t);
      } else {
        assert life == life[t := RUNNING];
      }
    }

    /** Lines 41-44 of `schedule`. */
    method BoostIfDue()
      requires Valid()
      modifies this`boostAt, ready
      ensures Valid() && S() == Boost(old(S()))
    {
      hide Base, Rings4, Ranked, Tops;
      ghost var s := S();
      BoostKeeps(s);
      if time >= boostAt {
        ready.ResetPriority();
        boostAt := time + BOOST_INTERVAL;
        assert S().tasks == Boost(s).tasks;
      }
    }

    /** `chose_next_task`, with the idle task when every queue is empty. */
    method ChooseNext() returns (next: Task)
      requires Valid()
      modifies ready
      ensures Shape() && S() == old(S()).(queue := Choose(old(S()).queue).1) && next == Choose(old(S()).queue).0
    {
      hide Base, Rings4, Ranked, Choose;
      var r := ready.ChoseNextTask();
      if r.None? {
        ChooseEmpty(old(ready.q));
        return IDLE;
      }
      ghost var i :| 0 <= i < 4 && Dispatches(old(ready.q), ready.q, i, r.value);
      ChooseUnique(old(ready.q), ready.q, i, r.value);
      return r.value;
    }

    /** Lines 56-66 of `schedule`: the current task loses its slice or a level and is queued again if runnable. */
    method RetireCurrent(ghost q: Queues)
      requires Shape() && current in life && ready.prio[current] < 4 && q == ready.q
      requires forall i :: 0 <= i < 4 ==> current !in q[i]
      modifies this`slice, ready
      ensures Shape() && S() == Retire(old(S()), q)
      ensures LeavesCpu(Tcb(life[current], old(ready.prio[current]), old(slice[current])),
                        Tcb(life[current], ready.prio[current], slice[current]))
      ensures life[current] == RUNNING ==>
                ready.prio[current] < 4 && ready.q[ready.prio[current]] == q[ready.prio[current]] + [current]
      ensures life[current] != RUNNING ==> ready.q == q
    {
      hide Rings4, Ranked;
      ghost var s := S();
      var p := ready.prio[current];
      if p != 0 {
        if slice[current] == 0 {
          slice := slice[current := SLICE];
          ready.SetPriority(current, p - 1);
        }
      } else {
        slice := slice[current := SLICE];
      }
      assert S().tasks == Retire(s, q).tasks;
      if life[current] == RUNNING {
        Add(current);
      }
    }

    /** `schedule`. */
    method Reschedule()
      requires Valid()
      modifies this`slice, this`current, this`boostAt, ready
      ensures Valid() && S() == Schedule(old(S())) && Inv(S())
      ensures old(current) != IDLE ==> current != old(current) && old(current) in life && old(current) in S().tasks
      ensures old(current) != IDLE ==> LeavesCpu(old(S().tasks[current]), S().tasks[old(current)])
      ensures old(current) != IDLE && old(life[current]) == RUNNING ==>
                var p := ready.prio[old(current)];
                p < 4 && ready.q[p] != [] && ready.q[p][|ready.q[p]| - 1] == old(current)
    {
      hide Base, Inv, Rings4, Ranked, Schedule, Boost, Switched, Tcbs;
      ghost var s := S();
      BaseCurrent(s);
      ScheduleKeeps(s);
      ScheduleIs(s);
      if s.current != IDLE { OutgoingTask(s); }
      TcbKeys(life, ready.prio, slice);
      BoostIfDue();
      Switch();
      TcbKeys(life, ready.prio, slice);
      InvBase(S());
    }

    /** Lines 46-76 of `schedule`, after the boost. */
    method Switch()
      requires Valid()
      modifies this`slice, this`current, ready
      ensures Shape() && S() == Switched(old(S()))
    {
      hide Base, Rings4, Ranked, Choose, Tcbs, Retire;
      ghost var b := S();
      BaseCurrent(b);
      CurrentNotQueued(b);
      NotQueuedAfter(b);
      var next := ChooseNext();
      if next == IDLE && current == IDLE {
        IdleQueuesKept(b);
        return;
      }
      if current != IDLE {
        TcbKeys(life, ready.prio, slice);
        RetireCurrent(ready.q);
        RetireSame(b, Choose(b.queue).1);
      }
      current := next;
    }

    /** `task_sleep` on a lock that is held, or on none. */
    method TaskSleep()
      requires Valid() && Inv(S()) && current != IDLE
      modifies this`life, this`slice, this`blocked, this`current, this`boostAt, ready
      ensures Valid() && Inv(S()) && S() == Apply(old(S()), Sleep)
      ensures life == old(life)[old(current) := SLEEPING] && current != old(current)
      ensures blocked == [old(current)] + old(blocked)
    {
      hide Base, Rings4, Ranked, Schedule, Tcbs;
      ghost var s := S();
      BaseCurrent(s);
      SleepKeeps(s);
      TcbLife(life, ready.prio, slice, current, SLEEPING);
      blocked := [current] + blocked;
      life := life[current := SLEEPING];
      Reschedule();
    }

    /** `task_exit`; the cleaner is woken after the state change instead of before (see `ExitCommutes`). */
    method TaskExit()
      requires Valid() && Inv(S()) && current != IDLE && current != CLEANER
      modifies this`life, this`slice, this`blocked, this`finished, this`current, this`boostAt, ready
      ensures Valid() && Inv(S()) && S() == Apply(old(S()), Exit)
      ensures current != old(current)
      ensures finished == (if old(current) == INIT then [] else [old(current)]) + old(finished)
      ensures var gone := old(life)[old(current) := ZOMBIE];
        life == if old(current) == INIT then gone else gone[CLEANER := RUNNING]
    {
      hide Base, Rings4, Ranked, Schedule, WakeUp, Tcbs, TakenOut, LeavesCpu;
      ghost var s := S();
      BaseCurrent(s);
      ExitKeeps(s);
      ExitCommutes(s);
      TcbLife(life, ready.prio, slice, current, ZOMBIE);
      if current != INIT {
        finished := [current] + finished;
      }
      life := life[current := ZOMBIE];
      if current != INIT {
        TcbKeys(life, ready.prio, slice);
        TaskWakeup(CLEANER);
      }
      Reschedule();
    }

    /** `clock_isr` on the boot CPU; `expired` are the tasks of the timers that have run out. */
    method ClockIsr(expired: seq<Task>)
      requires Valid() && Inv(S()) && Wakeable(S(), expired)
      modifies this`life, this`slice, this`blocked, this`current, this`time, this`boostAt, ready
      ensures Valid() && Inv(S()) && S() == Apply(old(S()), Tick(expired)) && time == old(time) + 10
      ensures life.Keys == old(life.Keys)
      ensures forall t :: t in life ==> life[t] == if t in expired then RUNNING else old(life)[t]
      ensures forall t :: t in expired && t != IDLE ==> Ready(S(), t)
    {
      hide Base, Rings4, Ranked, Schedule, WakeAll, Minus10, Tcbs, Ready;
      ghost var s := S();
      InvSlices(s);
      LaterKeeps(s);
      TickEffect(s, expired);
      time := time + 10;
      WakeExpired(expired);
      ghost var w := S();
      BaseCurrent(w);
      UseSlice();
    }

    /** Lines 91-97 of `clock_isr`: 10 milliseconds of the current slice, or another task when it is used up. */
    method UseSlice()
      requires Valid() && Inv(S())
      modifies this`slice, this`current, this`boostAt, ready
      ensures Valid() && Inv(S())
      ensures S() == AfterTick(old(S()))
      ensures old(slice[current]) != 0 ==>
                current == old(current) && boostAt == old(boostAt) && ready.prio == old(ready.prio)
      ensures old(slice[current]) != 0 ==> slice == old(slice)[current := old(slice[current]) - 10]
    {
      hide Base, Rings4, Ranked, Schedule, Minus10, Tcbs, LeavesCpu;
      ghost var w := S();
      BaseCurrent(w);
      TcbKeys(life, ready.prio, slice);
      if slice[current] == 0 {
        Reschedule();
      } else {
        SliceKeeps(w);
        TickExact(w);
        TcbSlice(life, ready.prio, slice, current, Minus10(slice[current]));
        slice := slice[current := Minus10(slice[current])];
        InvBase(S());
      }
    }

    /** The scheduler and the active timers. */
    ghost function Y(pool: Timers.Pool): System
      requires slice.Keys == life.Keys && ready.prio.Keys == life.Keys
      requires forall n :: n in pool.active ==> n in pool.timers
      reads this, ready, pool
    {
      System(S(), Alarms(pool.active, pool.timers))
    }

    /**
     `clock_isr` with the timers: the thread of every timer that is due is runnable afterwards, and has the
     CPU or is queued; no other task changes its state.
     */
    method ClockTick(pool: Timers.Pool)
      requires Valid() && Inv(S()) && pool.Valid() && Live(Y(pool))
      modifies this`life, this`slice, this`blocked, this`current, this`time, this`boostAt, ready
      modifies pool`stack, pool`links, pool`active
      ensures Valid() && Inv(S()) && pool.Valid() && time == old(time) + 10
      ensures Possible(old(Y(pool)), Clock) && Y(pool) == Do(old(Y(pool)), Clock)
      ensures life.Keys == old(life.Keys)
      ensures forall a :: a in old(Y(pool)).alarms && a.time <= time && a.thread != IDLE ==>
                a.thread in life && life[a.thread] == RUNNING && Ready(S(), a.thread)
      ensures forall t :: t in life && life[t] != old(life)[t] ==>
                exists a :: a in old(Y(pool)).alarms && a.thread == t && a.time <= time
    {
      hide Base, Inv, Rings4, Ranked, Apply, Enabled, Ready, Due, NotDue, Alarms;
      hide Timers.Pool.Valid, Timers.Woken, Timers.Pending;
      ActiveSet(pool);
      ghost var y := Y(pool);
      ClockPossible(y);
      ghost var active := pool.active;
      var due := pool.Expire(time + 10);
      WokenIsDue(active, pool.timers, time + 10);
      OneMove(y.s, Tick(due));
      forall t ensures t in due <==> exists a :: a in y.alarms && a.thread == t && a.time <= time + 10 {
        DueMeans(y.alarms, time + 10, t);
      }
      MayWake(y.s, due);
      ClockIsr(due);
    }

    /** `ms_sleep_until`: it fails when all timers are in use, and else the caller sleeps with a timer armed. */
    method MsSleepUntil(pool: Timers.Pool, until: nat) returns (ok: bool)
      requires Valid() && Inv(S()) && pool.Valid() && current != IDLE
      modifies this`life, this`slice, this`blocked, this`current, this`boostAt, ready, pool
      ensures Valid() && Inv(S()) && pool.Valid()
      ensures Possible(old(Y(pool)), Nap(until)) && Y(pool) == Do(old(Y(pool)), Nap(until))
      ensures ok == (|old(pool.active)| < 20)
      ensures ok ==> old(current) in life && life[old(current)] == SLEEPING && current != old(current)
      ensures ok ==> blocked == [old(current)] + old(blocked)
      ensures Y(pool).alarms == old(Y(pool)).alarms + if ok then [Timers.Timer(old(current), until)] else []
    {
      hide Base, Inv, Rings4, Ranked, Apply, Enabled, Timers.Pool.Valid;
      ActiveSet(pool);
      ghost var y := Y(pool);
      ghost var active, timers := pool.active, pool.timers;
      SleepEnabled(y.s);
      OneMove(y.s, Sleep);
      ok := pool.Arm(current, until);
      if !ok { return; }
      ghost var n := pool.active[|active|];
      NewTimer(pool, active);
      ArmedLast(active, timers, n, Timers.Timer(current, until));
      SleepEffect(y.s);
      TaskSleep();
    }

    /** `kernel_fork` and `kthread_create` as far as the scheduler sees them: the task inherits the priority. */
    method Create(t: Task)
      requires Valid() && Inv(S()) && current != IDLE && t !in life && t != IDLE && t !in ready.heads
      modifies this`life, this`slice, ready
      ensures Valid() && Inv(S()) && S() == Apply(old(S()), Mlfq.Create(t))
      ensures life == old(life)[t := RUNNING] && slice == old(slice)[t := 100]
      ensures ready.prio == old(ready.prio)[t := old(ready.prio[current])] && ready.prio[t] < 4
      ensures ready.q[ready.prio[t]] == old(ready.q)[ready.prio[t]] + [t]
    {
      hide Base, Inv, Rings4, Ranked;
      ghost var s := S();
      CreateEnabled(s, t);
      CreateKeeps(s, t);
      var p := ready.prio[current];
      life := life[t := RUNNING];
      slice := slice[t := SLICE];
      ready.SetPriority(t, p);
      assert S().tasks == s.tasks[t := Tcb(RUNNING, p, SLICE)];
      Add(t);
      InvBase(S());
    }

    /**
     One round of `cleaner_worker` up to its call of `task_sleep`: the finished tasks are gone, and each
     was a zombie.
     */
    method Reap()
      requires Valid() && Inv(S()) && current == CLEANER
      modifies this`life, this`slice, this`finished, ready`prio
      ensures Valid() && Inv(S()) && S() == Apply(old(S()), Mlfq.Reap)
    {
      hide Base, Inv, Rings4, Ranked, Tcbs, Reaped, Unlisted;
      ghost var s := S();
      FinishedAre(s);
      ReapKeeps(s);
      ReapedNone(s);
      var i := 0;
      while i < |finished|
        invariant i <= |finished| && finished == s.finished && Shape() && Reaped(S(), s, i)
      {
        ReapOne(i, s);
        i := i + 1;
      }
      AllReaped(S(), s);
      finished := [];
      InvBase(S());
    }

    method ReapOne(i: nat, ghost s: State)
      requires i < |finished| == |s.finished| && Shape() && Unlisted(s) && Reaped(S(), s, i)
      modifies this`life, this`slice, ready`prio
      ensures Shape() && Reaped(S(), s, i + 1)
    {
      hide Rings4, Ranked, Reaped, Unlisted;
      NotYetReaped(S(), s, i);
      var t := finished[i];
      assert life[t] == ZOMBIE;
      ghost var r := S();
      life, slice := life - {t}, slice - {t};
      ready.Forget(t);
      assert S().tasks == r.tasks - {t};
      ReapedOne(r, S(), s, i);
    }

    /** The loop over the active timers at lines 79-88. */
    method WakeExpired(expired: seq<Task>)
      requires Valid() && Inv(S()) && Slices(S()) && Wakeable(S(), expired)
      modifies this`life, this`blocked, ready
      ensures Valid() && Inv(S()) && S() == WakeAll(old(S()), expired) && life.Keys == old(life.Keys)
      ensures forall t :: t in life ==> life[t] == if t in expired then RUNNING else old(life)[t]
      ensures ready.prio == old(ready.prio) && forall i :: 0 <= i < 4 ==> old(ready.q)[i] <= ready.q[i]
    {
      hide Base, Rings4, Ranked, WakeUp, Tcbs, TakenOut, Awake;
      ghost var s := S();
      TcbKeys(life, ready.prio, slice);
      WakeAllAwake(s, expired);
      var i := 0;
      while i < |expired|
        invariant 0 <= i <= |expired| && Valid() && Inv(S()) && Slices(S()) && Wakeable(S(), expired)
        invariant WakeAll(S(), expired[i..]) == WakeAll(s, expired) && ready.prio == old(ready.prio)
      {
        var t := expired[i];
        ghost var b := S();
        TcbKeys(life, ready.prio, slice);
        WokenInv(b, t, expired);
        TaskWakeup(t);
        assert expired[i..][1..] == expired[i + 1..] && expired[i..][0] == t;
        i := i + 1;
      }
      TcbKeys(life, ready.prio, slice);
      AwakeMeans(s, expired, S());
    }
  }

  /** What a tick does after the wake-ups: `schedule` when the slice is used up, else 10 less of it. */
  ghost function AfterTick(w: State): State
    requires Inv(w)
  {
    var c := w.tasks[w.current];
    if c.slice == 0 then Schedule(w) else w.(tasks := w.tasks[w.current := c.(slice := Minus10(c.slice))])
  }

  /** What `schedule` does after the boost. */
  ghost function Switched(b: State): State
    requires b.current in b.tasks && b.tasks[b.current].prio < 4
  {
    var (next, q) := Choose(b.queue);
    if next == IDLE && b.current == IDLE then b
    else if b.current == IDLE then b.(queue := q, current := next)
    else Retire(b, q).(current := next)
  }

  lemma ScheduleIs(s: State)
    requires Base(s) && s.current in s.tasks && s.tasks[s.current].prio < 4
    ensures var b := Boost(s);
      Base(b) && b.current in b.tasks && b.tasks[b.current].prio < 4 && Schedule(s) == Switched(b)
  {
    hide Choose, Retire;
    BoostKeeps(s);
  }

  /** Only the queues given to it matter to the retirement of the current task. */
  lemma RetireSame(b: State, q: Queues)
    requires b.current in b.tasks && b.tasks[b.current].prio < 4
    ensures Retire(b.(queue := q), q) == Retire(b, q)
  {
  }

  lemma ActiveSet(pool: Timers.Pool)
    requires pool.Valid()
    ensures forall n :: n in pool.active ==> n in pool.timers
  {
  }

  /** The timer just armed is not one of those armed before. */
  lemma NewTimer(pool: Timers.Pool, active: seq<Node>)
    requires pool.Valid() && |pool.active| == |active| + 1 && pool.active[..|active|] == active
    ensures pool.active[|active|] !in active && pool.active == active + [pool.active[|active|]]
  {
    var both := pool.stack + pool.active;
    forall i | 0 <= i < |active| ensures active[i] != pool.active[|active|] {
      assert both[|pool.stack| + i] == active[i] && both[|pool.stack| + |active|] == pool.active[|active|];
    }
  }

  lemma AwakeMeans(s: State, ts: seq<Task>, r: State)
    requires Awake(s, ts, r)
    ensures r.tasks.Keys == s.tasks.Keys && forall i :: 0 <= i < 4 ==> s.queue[i] <= r.queue[i]
    ensures forall t :: t in s.tasks ==> r.tasks[t].life == if t in ts then RUNNING else s.tasks[t].life
  {
  }

  lemma SleepEnabled(s: State)
    requires Inv(s) && s.current != IDLE
    ensures Enabled(s, Sleep)
  {
  }

  lemma MayWake(s: State, ts: seq<Task>)
    requires Enabled(s, Tick(ts))
    ensures Wakeable(s, ts)
  {
  }

  lemma CreateEnabled(s: State, t: Task)
    requires Inv(s) && s.current != IDLE && t !in s.tasks && t != IDLE
    ensures Enabled(s, Create(t)) && forall i :: 0 <= i < 4 ==> t !in s.queue[i]
  {
  }

  /** The finish list holds zombies, each once, and none is queued. */
  ghost predicate Unlisted(s: State) {
    && Seqs.NoDup(s.finished) && (forall t :: t in s.finished ==> t in s.tasks && s.tasks[t].life == ZOMBIE)
    && (forall t, i :: t in s.finished && 0 <= i < 4 ==> t !in s.queue[i])
  }

  lemma FinishedAre(s: State)
    requires Inv(s) && s.current == CLEANER
    ensures Enabled(s, Reap) && Unlisted(s)
  {
    forall i, j | 0 <= i < j < |s.finished| ensures s.finished[i] != s.finished[j] {
      FinishedOnce(s, i, j);
    }
  }

  lemma FinishedOnce(s: State, i: nat, j: nat)
    requires Base(s) && i < j < |s.finished|
    ensures s.finished[i] != s.finished[j]
  {
    var f, t := s.finished, s.finished[i];
    assert Memberships(s)[t] <= 1;
    assert multiset(f)[t] <= 1;
    assert f == f[..j] + f[j..] && f[..j][i] == t && f[j..][0] == f[j];
    assert multiset(f) == multiset(f[..j]) + multiset(f[j..]);
    assert multiset(f[..j])[t] >= 1 && multiset(f[j..])[f[j]] >= 1;
  }

  /** The first `i` finished tasks of `s` are gone in `r`. */
  ghost predicate Reaped(r: State, s: State, i: nat)
    requires i <= |s.finished|
  {
    r == s.(tasks := map t | t in s.tasks && t !in s.finished[..i] :: s.tasks[t])
  }

  lemma ReapedNone(s: State)
    ensures Reaped(s, s, 0)
  {
    assert (map t | t in s.tasks && t !in s.finished[..0] :: s.tasks[t]) == s.tasks;
  }

  lemma NotYetReaped(r: State, s: State, i: nat)
    requires i < |s.finished| && Reaped(r, s, i) && Unlisted(s)
    ensures r.finished == s.finished && s.finished[i] in r.tasks && r.tasks[s.finished[i]].life == ZOMBIE
    ensures forall j :: 0 <= j < 4 ==> s.finished[i] !in r.queue[j]
  {
    assert s.finished[i] !in s.finished[..i];
    assert s.finished[i] in s.finished;
  }

  lemma ReapedOne(r: State, r': State, s: State, i: nat)
    requires i < |s.finished| && Reaped(r, s, i)
    requires r' == r.(tasks := r.tasks - {s.finished[i]})
    ensures Reaped(r', s, i + 1)
  {
    assert s.finished[..i + 1] == s.finished[..i] + [s.finished[i]];
  }

  lemma AllReaped(r: State, s: State)
    requires Enabled(s, Reap) && Reaped(r, s, |s.finished|)
    ensures r.(finished := []) == Apply(s, Reap)
  {
    assert s.finished[..|s.finished|] == s.finished;
  }

  lemma InvBase(s: State)
    requires Inv(s)
    ensures Base(s)
  {
  }

  /** Waking the cleaner before or after the exiting task becomes a zombie makes no difference. */
  lemma ExitCommutes(s: State)
    requires Inv(s) && s.current != CLEANER
    ensures CLEANER in s.tasks && s.tasks[CLEANER].prio < 4 && s.tasks[CLEANER].life != ZOMBIE
    ensures var f := s.(finished := [s.current] + s.finished);
      SetLife(WakeUp(f, CLEANER), ZOMBIE) == WakeUp(SetLife(f, ZOMBIE), CLEANER)
  {
  }

  lemma InvSlices(s: State)
    requires Inv(s)
    ensures Slices(s) && s.current in s.tasks
  {
  }

  /** Timers only belong to tasks that have not exited. */
  ghost predicate Wakeable(s: State, ts: seq<Task>) {
    forall t :: t in ts ==> t in s.tasks && s.tasks[t].life != ZOMBIE
  }

  lemma WokenInv(s: State, t: Task, ts: seq<Task>)
    requires Inv(s) && t in ts && Wakeable(s, ts)
    ensures s.tasks[t].prio < 4 && (t == s.current ==> s.tasks[t].life == RUNNING)
    ensures Inv(WakeUp(s, t)) && Slices(WakeUp(s, t)) && Wakeable(WakeUp(s, t), ts)
  {
    WakeKeeps(s, t);
  }

  lemma BaseCurrent(s: State)
    requires Base(s)
    ensures s.current in s.tasks && s.tasks[s.current].prio < 4
  {
  }

  lemma InBase(s: State, t: Task)
    requires Base(s) && t in s.tasks
    ensures s.tasks[t].prio < 4 && s.current in s.tasks
  {
  }

  lemma ChooseEmpty(q: Queues)
    requires forall i :: 0 <= i < 4 ==> q[i] == []
    ensures Choose(q) == (IDLE, q)
  {
  }

  lemma ChooseUnique(q: Queues, q': Queues, i: nat, x: Task)
    requires i < 4 && Dispatches(q, q', i, x)
    ensures Choose(q) == (x, q')
  {
  }

  lemma NotQueuedAfter(s: State)
    requires forall i :: 0 <= i < 4 ==> s.current !in s.queue[i]
    ensures forall i :: 0 <= i < 4 ==> s.current !in Choose(s.queue).1[i]
  {
  }

  lemma IdleQueuesKept(s: State)
    requires Base(s) && Choose(s.queue).0 == IDLE
    ensures Choose(s.queue).1 == s.queue
  {
    ChooseSpec(s.queue);
    IdleNotQueued(s);
  }

  const BOOT_TASKS: map<Task, Tcb> :=
    map[IDLE := Tcb(RUNNING, 3, 0), INIT := Tcb(RUNNING, 3, SLICE), CLEANER := Tcb(RUNNING, 3, SLICE)]

  /** The fields of the three boot tasks. */
  method BootFields() returns (life: map<Task, Life>, prio: map<Task, nat>, slice: map<Task, nat>)
    ensures life.Keys == prio.Keys == slice.Keys && CLEANER in prio && prio[CLEANER] == MAX_PRIORITY
    ensures forall t :: t in life ==> t <= CLEANER
    ensures Tcbs(life, prio, slice) == BOOT_TASKS
  {
    life := map[IDLE := RUNNING, INIT := RUNNING, CLEANER := RUNNING];
    prio := map[IDLE := MAX_PRIORITY, INIT := MAX_PRIORITY, CLEANER := MAX_PRIORITY];
    slice := map[IDLE := 0, INIT := SLICE, CLEANER := SLICE];
  }

  lemma BootInv(s: State)
    requires s.tasks == BOOT_TASKS
    requires s.queue == [[], [], [], [CLEANER]] && s.current == INIT && s.blocked == [] && s.finished == []
    requires s.boostAt <= s.time + BOOST_INTERVAL
    ensures Inv(s)
  {
    assert Memberships(s) == multiset{CLEANER};
  }

  function Tcbs(life: map<Task, Life>, prio: map<Task, nat>, slice: map<Task, nat>): map<Task, Tcb>
    requires slice.Keys == life.Keys && prio.Keys == life.Keys
  {
    map t | t in life :: Tcb(life[t], prio[t], slice[t])
  }

  /** A write to the state field of one task. */
  lemma TcbLife(life: map<Task, Life>, prio: map<Task, nat>, slice: map<Task, nat>, t: Task, l: Life)
    requires slice.Keys == life.Keys && prio.Keys == life.Keys && t in Tcbs(life, prio, slice)
    ensures t in life && life[t := l].Keys == life.Keys
    ensures var tcbs := Tcbs(life, prio, slice); Tcbs(life[t := l], prio, slice) == tcbs[t := tcbs[t].(life := l)]
  {
  }

  /** A write to the slice field of one task. */
  lemma TcbSlice(life: map<Task, Life>, prio: map<Task, nat>, slice: map<Task, nat>, t: Task, x: nat)
    requires slice.Keys == life.Keys && prio.Keys == life.Keys && t in Tcbs(life, prio, slice)
    ensures t in slice && slice[t := x].Keys == slice.Keys
    ensures var tcbs := Tcbs(life, prio, slice); Tcbs(life, prio, slice[t := x]) == tcbs[t := tcbs[t].(slice := x)]
  {
  }

  lemma TcbKeys(life: map<Task, Life>, prio: map<Task, nat>, slice: map<Task, nat>)
    requires slice.Keys == life.Keys && prio.Keys == life.Keys
    ensures Tcbs(life, prio, slice).Keys == life.Keys
    ensures forall t :: t in life ==> Tcbs(life, prio, slice)[t] == Tcb(life[t], prio[t], slice[t])
  {
  }
}
