/**
 Whole runs of the scheduler: the invariant along every run, and the bounds on how long
 a queued task can wait, whatever the other tasks do.
 */
module MlfqRuns {
  import opened Scheduler
  import opened Mlfq

  /** Every step of `steps` is possible when its turn comes. */
  ghost predicate Legal(s: State, steps: seq<Step>)
    decreases |steps|
  {
    steps == [] || (Enabled(s, steps[0]) && Legal(Apply(s, steps[0]), steps[1..]))
  }

  ghost function Run(s: State, steps: seq<Step>): State
    requires Legal(s, steps)
    decreases |steps|
  {
    if steps == [] then s else Run(Apply(s, steps[0]), steps[1..])
  }

  lemma {:induction false} RunKeeps(s: State, steps: seq<Step>)
    requires Inv(s) && Legal(s, steps)
    ensures Inv(Run(s, steps))
    decreases |steps|
  {
    if steps != [] {
      StepKeeps(s, steps[0]);
      RunKeeps(Apply(s, steps[0]), steps[1..]);
    }
  }

  /**
   In every reachable state each task other than idle is in exactly one place: the running task on
   no list, a runnable one in the queue of its priority, a sleeper on a block list, a zombie on
   the finish list. An exited `init` is on none.
   */
  lemma ExactlyOnePlace(s: State, steps: seq<Step>, t: Task)
    requires Inv(s) && Legal(s, steps) && t != IDLE && t in Run(s, steps).tasks
    ensures var r := Run(s, steps);
      if t == r.current then r.tasks[t].life == RUNNING && Memberships(r)[t] == 0
      else
        match r.tasks[t].life
        case RUNNING => Memberships(r)[t] == 1 && r.tasks[t].prio < 4 && t in r.queue[r.tasks[t].prio]
        case SLEEPING => Memberships(r)[t] == 1 && t in r.blocked
        case ZOMBIE => if t == INIT then Memberships(r)[t] == 0 else Memberships(r)[t] == 1 && t in r.finished
  {
    RunKeeps(s, steps);
    OnePlaceOf(Run(s, steps), t);
  }

  lemma OnePlaceOf(r: State, t: Task)
    requires Inv(r) && t != IDLE && t in r.tasks
    ensures Memberships(r)[t] == Expected(r, t) && r.tasks[t].prio < 4
    ensures Expected(r, t) == 1 ==> match r.tasks[t].life
                                    case RUNNING => t in r.queue[r.tasks[t].prio]
                                    case SLEEPING => t in r.blocked
                                    case ZOMBIE => t in r.finished
  {
    if Expected(r, t) == 1 {
      assert Memberships(r)[t] == 1;
      assert t in r.queue[0] || t in r.queue[1] || t in r.queue[2] || t in r.queue[3] ||
             t in r.blocked || t in r.finished;
    }
  }

  // ------------------------------------------------------------- waiting times

  /** The state in which a step calls `schedule`, for the steps that do. */
  ghost function PreSchedule(s: State, step: Step): State
    requires Enabled(s, step)
  {
    match step
    case Tick(ts) => WakeAll(s.(time := s.time + 10), ts)
    case Sleep => SetLife(s.(blocked := [s.current] + s.blocked), SLEEPING)
    case Exit =>
      if s.current == INIT then SetLife(s, ZOMBIE)
      else SetLife(WakeUp(s.(finished := [s.current] + s.finished), CLEANER), ZOMBIE)
    case _ => s
  }

  /** Whether a step calls `schedule`: a tick does when the current slice is used up. */
  ghost predicate Schedules(s: State, step: Step)
    requires Enabled(s, step)
  {
    match step
    case Tick(ts) => var w := PreSchedule(s, step); w.tasks[w.current].slice == 0
    case Yield => true
    case Sleep => true
    case Exit => true
    case _ => false
  }

  lemma ScheduleStep(s: State, step: Step)
    requires Enabled(s, step) && Schedules(s, step)
    ensures var p := PreSchedule(s, step);
      p.current in p.tasks && p.tasks[p.current].prio < 4 && p.current == s.current && Apply(s, step) == Schedule(p)
  {
  }

  /** Task `t` is at position `k` of the top queue. */
  ghost predicate NthTop(s: State, t: Task, k: nat) {
    k < |s.queue[3]| && s.queue[3][k] == t
  }

  lemma WakeKeepsTop(s: State, x: Task, t: Task, k: nat)
    requires x in s.tasks && s.tasks[x].prio < 4 && NthTop(s, t, k)
    ensures NthTop(WakeUp(s, x), t, k)
  {
  }

  lemma {:induction false} WakeAllKeepsTop(s: State, xs: seq<Task>, t: Task, k: nat)
    requires forall x :: x in xs ==> x in s.tasks
    requires forall x :: x in s.tasks ==> s.tasks[x].prio < 4
    requires NthTop(s, t, k)
    ensures NthTop(WakeAll(s, xs), t, k)
    decreases |xs|
  {
    if xs != [] {
      WakeKeepsTop(s, xs[0], t, k);
      WakeAllKeepsTop(WakeUp(s, xs[0]), xs[1..], t, k);
    }
  }

  lemma PreScheduleTop(s: State, step: Step, t: Task, k: nat)
    requires Enabled(s, step) && NthTop(s, t, k)
    ensures NthTop(PreSchedule(s, step), t, k)
  {
    match step
    case Tick(ts) => WakeAllKeepsTop(s.(time := s.time + 10), ts, t, k);
    case Exit => if s.current != INIT { WakeKeepsTop(s.(finished := [s.current] + s.finished), CLEANER, t, k); }
    case _ =>
  }

  lemma BoostTop(s: State, t: Task, k: nat)
    requires NthTop(s, t, k)
    ensures NthTop(Boost(s), t, k)
  {
    assert Tops(s.queue, 2) == s.queue[3] + s.queue[2];
  }

  /** One call of `schedule` brings a task of the top queue one place forward. */
  lemma ScheduleAdvances(s: State, t: Task, k: nat)
    requires s.current in s.tasks && s.tasks[s.current].prio < 4
    requires NthTop(s, t, k) && s.queue[3][0] != IDLE && t != IDLE
    ensures if k == 0 then Schedule(s).current == t else NthTop(Schedule(s), t, k - 1)
  {
    BoostTop(s, t, k);
    BoostTop(s, s.queue[3][0], 0);
  }

  lemma QueuedNotIdle(s: State, k: nat)
    requires Inv(s) && k < |s.queue[3]|
    ensures s.queue[3][k] != IDLE
  {
    NotQueued(s, IDLE);
    assert s.queue[3][k] in s.queue[3];
  }

  lemma StepAdvances(s: State, step: Step, t: Task, k: nat)
    requires Inv(s) && Enabled(s, step) && NthTop(s, t, k)
    ensures if !Schedules(s, step) then NthTop(Apply(s, step), t, k)
            else if k == 0 then Apply(s, step).current == t
            else NthTop(Apply(s, step), t, k - 1)
  {
    PreScheduleTop(s, step, t, k);
    if Schedules(s, step) {
      ScheduleStep(s, step);
      QueuedNotIdle(s, k);
      QueuedNotIdle(s, 0);
      PreScheduleTop(s, step, s.queue[3][0], 0);
      ScheduleAdvances(PreSchedule(s, step), t, k);
    } else if step.Wake? {
      WakeKeepsTop(s, step.task, t, k);
    }
  }

  /** The number of calls of `schedule` in a run. */
  ghost function CountSchedules(s: State, steps: seq<Step>): nat
    requires Legal(s, steps)
    decreases |steps|
  {
    if steps == [] then 0
    else (if Schedules(s, steps[0]) then 1 else 0) + CountSchedules(Apply(s, steps[0]), steps[1..])
  }

  /** Task `t` gets the CPU in the run. */
  ghost predicate Dispatched(s: State, steps: seq<Step>, t: Task)
    requires Legal(s, steps)
    decreases |steps|
  {
    steps != [] && (Apply(s, steps[0]).current == t || Dispatched(Apply(s, steps[0]), steps[1..], t))
  }

  /** A task at position `k` of the top queue runs by the `k + 1`-th call of `schedule`. */
  lemma {:induction false} TopQueueBound(s: State, steps: seq<Step>, t: Task, k: nat)
    requires Inv(s) && Legal(s, steps) && NthTop(s, t, k) && CountSchedules(s, steps) > k
    ensures Dispatched(s, steps, t)
    decreases |steps|
  {
    hide Inv, Enabled, Apply, Schedules, NthTop;
    var r := Apply(s, steps[0]);
    StepKeeps(s, steps[0]);
    StepAdvances(s, steps[0], t, k);
    if Schedules(s, steps[0]) {
      if k > 0 { TopQueueBound(r, steps[1..], t, k - 1); }
    } else {
      TopQueueBound(r, steps[1..], t, k);
    }
  }

  /** When `schedule` boosts, every queued task is in the top queue, ahead of later arrivals. */
  lemma BoostAdvances(p: State, t: Task, k: nat)
    requires p.current in p.tasks && p.tasks[p.current].prio < 4 && p.time >= p.boostAt && IDLE !in Tops(p.queue, 0)
    requires k < |Tops(p.queue, 0)| && Tops(p.queue, 0)[k] == t
    ensures if k == 0 then Schedule(p).current == t else NthTop(Schedule(p), t, k - 1)
  {
  }

  /** `schedule` is always called in a state where only the current task's life has changed already. */
  lemma PreScheduleBase(s: State, step: Step)
    requires Inv(s) && Enabled(s, step)
    ensures Base(PreSchedule(s, step))
  {
    hide OnePlace, RightPlace, Slices, Special, WakeUp;
    match step
    case Tick(ts) => LaterKeeps(s); WakeAllKeeps(s.(time := s.time + 10), ts);
    case Sleep => SleepKeeps(s);
    case Exit => ExitPreBase(s);
    case _ =>
  }

  lemma ExitPreBase(s: State)
    requires Inv(s) && Enabled(s, Exit)
    ensures Base(PreSchedule(s, Exit))
  {
    ExitKeeps(s);
    if s.current != INIT {
      var f := s.(finished := [s.current] + s.finished);
      WakeKeeps(SetLife(f, ZOMBIE), CLEANER);
      assert SetLife(WakeUp(f, CLEANER), ZOMBIE) == WakeUp(SetLife(f, ZOMBIE), CLEANER);
    }
  }

  /**
   After a boost no task waits longer than the number of tasks queued at that moment:
   `step` is the boosting call of `schedule`, `post` what happens afterwards.
   */
  lemma BoostBound(s: State, step: Step, post: seq<Step>, t: Task)
    requires Inv(s) && Enabled(s, step) && Schedules(s, step) && Legal(Apply(s, step), post)
    requires var p := PreSchedule(s, step); p.time >= p.boostAt && t in Tops(p.queue, 0)
    requires CountSchedules(Apply(s, step), post) + 1 >= |Tops(PreSchedule(s, step).queue, 0)|
    ensures Apply(s, step).current == t || Dispatched(Apply(s, step), post, t)
  {
    hide Inv, Base, Enabled, Apply, Schedules, PreSchedule, NthTop, Tops, Schedule;
    var p := PreSchedule(s, step);
    var k :| 0 <= k < |Tops(p.queue, 0)| && Tops(p.queue, 0)[k] == t;
    ScheduleStep(s, step);
    PreScheduleBase(s, step);
    NoIdle(p);
    BoostAdvances(p, t, k);
    StepKeeps(s, step);
    if k > 0 { TopQueueBound(Apply(s, step), post, t, k - 1); }
  }

  lemma NoIdle(p: State)
    requires Base(p)
    ensures IDLE !in Tops(p.queue, 0)
  {
    IdleNotQueued(p);
  }

  // ----------------------------------------------------- the boost comes in time

  /** `schedule` boosted somewhere in the run. */
  ghost predicate BoostedIn(s: State, steps: seq<Step>)
    requires Legal(s, steps)
    decreases |steps|
  {
    steps != [] && (Apply(s, steps[0]).boostAt != s.boostAt || BoostedIn(Apply(s, steps[0]), steps[1..]))
  }

  ghost function Ticks(steps: seq<Step>): nat {
    if steps == [] then 0 else (if steps[0].Tick? then 1 else 0) + Ticks(steps[1..])
  }

  lemma {:induction false} WakeAllTime(s: State, ts: seq<Task>)
    requires forall t :: t in ts ==> t in s.tasks
    requires forall t :: t in s.tasks ==> s.tasks[t].prio < 4
    ensures WakeAll(s, ts).time == s.time && WakeAll(s, ts).boostAt == s.boostAt
    decreases |ts|
  {
    if ts != [] { WakeAllTime(WakeUp(s, ts[0]), ts[1..]); }
  }

  lemma StepTime(s: State, step: Step)
    requires Enabled(s, step)
    ensures Apply(s, step).time == s.time + (if step.Tick? then 10 else 0)
  {
    if step.Tick? { WakeAllTime(s.(time := s.time + 10), step.expired); }
  }

  /** Without a boost in between, 200 ticks make the next call of `schedule` boost. */
  lemma {:induction false} BoostComesDue(s: State, steps: seq<Step>)
    requires Inv(s) && Legal(s, steps) && !BoostedIn(s, steps)
    ensures var r := Run(s, steps); r.boostAt == s.boostAt && r.time == s.time + 10 * Ticks(steps)
    ensures Ticks(steps) >= 200 ==> Run(s, steps).time >= Run(s, steps).boostAt
    decreases |steps|
  {
    if steps != [] {
      hide Apply, Enabled;
      StepTime(s, steps[0]);
      StepKeeps(s, steps[0]);
      BoostComesDue(Apply(s, steps[0]), steps[1..]);
    }
  }

  // --------------------------------------------- a queued task stays queued until it runs

  lemma RunnableIsQueued(s: State, t: Task)
    requires Inv(s) && t in s.tasks && t != IDLE && t != s.current && s.tasks[t].life == RUNNING
    ensures t in Tops(s.queue, 0)
  {
    TopsQueued(s.queue, t);
    assert Memberships(s)[t] == Expected(s, t) == 1;
    assert t !in s.blocked && t !in s.finished;
  }

  lemma QueuedIsRunnable(s: State, t: Task)
    requires Inv(s) && t in Tops(s.queue, 0)
    ensures t in s.tasks && t != IDLE && t != s.current && s.tasks[t].life == RUNNING
  {
    TopsQueued(s.queue, t);
    IdleNotQueued(s);
    CurrentNotQueued(s);
  }

  ghost predicate Runnable(s: State, t: Task) {
    t in s.tasks && s.tasks[t].life == RUNNING
  }

  lemma {:induction false} WakeAllRunnable(s: State, ts: seq<Task>, t: Task)
    requires forall x :: x in ts ==> x in s.tasks
    requires forall x :: x in s.tasks ==> s.tasks[x].prio < 4
    requires Runnable(s, t)
    ensures Runnable(WakeAll(s, ts), t)
    decreases |ts|
  {
    if ts != [] { WakeAllRunnable(WakeUp(s, ts[0]), ts[1..], t); }
  }

  lemma ScheduleRunnable(s: State, t: Task)
    requires s.current in s.tasks && s.tasks[s.current].prio < 4 && Runnable(s, t)
    ensures Runnable(Schedule(s), t)
  {
    hide Choose;
  }

  lemma StepRunnable(s: State, step: Step, t: Task)
    requires Inv(s) && Enabled(s, step) && Runnable(s, t) && t != s.current
    ensures Runnable(Apply(s, step), t)
  {
    hide Schedule;
    if Schedules(s, step) {
      ScheduleStep(s, step);
      if step.Tick? { WakeAllRunnable(s.(time := s.time + 10), step.expired, t); }
      ScheduleRunnable(PreSchedule(s, step), t);
    } else if step.Tick? {
      WakeAllRunnable(s.(time := s.time + 10), step.expired, t);
    }
  }

  /** No step takes a task off the ready queues except by running it. */
  lemma {:induction false} QueuedUntilDispatched(s: State, steps: seq<Step>, t: Task)
    requires Inv(s) && Legal(s, steps) && t in Tops(s.queue, 0)
    ensures Dispatched(s, steps, t) || t in Tops(Run(s, steps).queue, 0)
    decreases |steps|
  {
    if steps != [] {
      hide Inv, Enabled, Apply, Tops;
      var r := Apply(s, steps[0]);
      QueuedIsRunnable(s, t);
      StepRunnable(s, steps[0], t);
      StepKeeps(s, steps[0]);
      if r.current != t {
        RunnableIsQueued(r, t);
        QueuedUntilDispatched(r, steps[1..], t);
      }
    }
  }
}
