/**
 No starvation: whatever tasks yield, sleep, wake, exit or are created, a queued task gets
 the CPU within 200 ticks plus as many calls of `schedule` as tasks are ever queued, and
 11 ticks bring one such call.
 */
module MlfqFairness {
  import opened Scheduler
  import opened Mlfq
  import opened MlfqRuns

  /** Whenever `schedule` is called in the run, at most `n` tasks are queued. */
  ghost predicate QueuedAtMost(s: State, steps: seq<Step>, n: nat)
    requires Legal(s, steps)
    decreases |steps|
  {
    steps == [] ||
    ((Schedules(s, steps[0]) ==> |Tops(PreSchedule(s, steps[0]).queue, 0)| <= n)
     && QueuedAtMost(Apply(s, steps[0]), steps[1..], n))
  }

  lemma WakeKeepsQueued(s: State, x: Task, t: Task)
    requires x in s.tasks && s.tasks[x].prio < 4 && t in Tops(s.queue, 0)
    ensures t in Tops(WakeUp(s, x).queue, 0)
  {
    TopsQueued(s.queue, t);
    var i :| 0 <= i < 4 && t in s.queue[i];
    assert t in WakeUp(s, x).queue[i];
    TopsQueued(WakeUp(s, x).queue, t);
  }

  lemma {:induction false} WakeAllKeepsQueued(s: State, xs: seq<Task>, t: Task)
    requires forall x :: x in xs ==> x in s.tasks
    requires forall x :: x in s.tasks ==> s.tasks[x].prio < 4
    requires t in Tops(s.queue, 0)
    ensures t in Tops(WakeAll(s, xs).queue, 0)
    decreases |xs|
  {
    if xs != [] {
      WakeKeepsQueued(s, xs[0], t);
      hide Tops;
      WakeAllKeepsQueued(WakeUp(s, xs[0]), xs[1..], t);
    }
  }

  /** A queued task is still queued when the step calls `schedule`; only time has passed for the boost. */
  lemma PreScheduleQueued(s: State, step: Step, t: Task)
    requires Enabled(s, step) && t in Tops(s.queue, 0)
    ensures t in Tops(PreSchedule(s, step).queue, 0)
    ensures PreSchedule(s, step).boostAt == s.boostAt && PreSchedule(s, step).time >= s.time
  {
    hide Tops;
    match step
    case Tick(ts) =>
      WakeAllTime(s.(time := s.time + 10), ts);
      WakeAllKeepsQueued(s.(time := s.time + 10), ts, t);
    case Exit => if s.current != INIT { WakeKeepsQueued(s.(finished := [s.current] + s.finished), CLEANER, t); }
    case _ =>
  }

  /** A step that does not boost leaves the due time alone. */
  lemma NoBoostStep(s: State, step: Step)
    requires Enabled(s, step)
    requires Schedules(s, step) ==> PreSchedule(s, step).time < PreSchedule(s, step).boostAt
    ensures Apply(s, step).boostAt == s.boostAt
  {
    hide Choose, Tops;
    if step.Tick? { WakeAllTime(s.(time := s.time + 10), step.expired); }
    if Schedules(s, step) { ScheduleStep(s, step); }
  }

  /** One step of a run in which `t` waits: it runs, or it is still queued. */
  lemma StillQueued(s: State, step: Step, t: Task)
    requires Inv(s) && Enabled(s, step) && t in Tops(s.queue, 0)
    ensures Inv(Apply(s, step)) && (Apply(s, step).current == t || t in Tops(Apply(s, step).queue, 0))
  {
    hide Tops, Apply, Inv, Enabled;
    QueuedIsRunnable(s, t);
    StepRunnable(s, step, t);
    StepKeeps(s, step);
    if Apply(s, step).current != t { RunnableIsQueued(Apply(s, step), t); }
  }

  /** A call of `schedule` that boosts starts the countdown. */
  lemma BoostNow(s: State, steps: seq<Step>, t: Task, n: nat)
    requires Inv(s) && Legal(s, steps) && steps != [] && t in Tops(s.queue, 0) && QueuedAtMost(s, steps, n)
    requires Schedules(s, steps[0]) && PreSchedule(s, steps[0]).time >= PreSchedule(s, steps[0]).boostAt
    requires CountSchedules(s, steps) >= n
    ensures Dispatched(s, steps, t)
  {
    hide Tops, Apply, Inv, Enabled, PreSchedule;
    PreScheduleQueued(s, steps[0], t);
    BoostBound(s, steps[0], steps[1..], t);
  }

  /** Once a boost is due, a queued task runs within `n` calls of `schedule`. */
  lemma {:induction false} DueBound(s: State, steps: seq<Step>, t: Task, n: nat)
    requires Inv(s) && Legal(s, steps) && t in Tops(s.queue, 0) && QueuedAtMost(s, steps, n)
    requires s.time >= s.boostAt && CountSchedules(s, steps) >= n && n >= 1
    ensures Dispatched(s, steps, t)
    decreases |steps|
  {
    hide Tops, Apply, Inv, Enabled, Schedules, PreSchedule;
    PreScheduleQueued(s, steps[0], t);
    if Schedules(s, steps[0]) {
      BoostNow(s, steps, t, n);
    } else {
      StillQueued(s, steps[0], t);
      NoBoostStep(s, steps[0]);
      StepTime(s, steps[0]);
      if Apply(s, steps[0]).current != t { DueBound(Apply(s, steps[0]), steps[1..], t, n); }
    }
  }

  lemma {:induction false} LegalSplit(s: State, pre: seq<Step>, post: seq<Step>)
    requires Legal(s, pre + post)
    ensures Legal(s, pre) && Legal(Run(s, pre), post)
    ensures CountSchedules(s, pre + post) >= CountSchedules(Run(s, pre), post)
    decreases |pre|
  {
    if pre == [] {
      assert pre + post == post;
    } else {
      hide Apply, Enabled;
      assert (pre + post)[1..] == pre[1..] + post;
      LegalSplit(Apply(s, pre[0]), pre[1..], post);
    }
  }

  lemma {:induction false} WaitBound(s: State, pre: seq<Step>, post: seq<Step>, t: Task, n: nat)
    requires Inv(s) && Legal(s, pre + post) && t in Tops(s.queue, 0) && QueuedAtMost(s, pre + post, n) && n >= 1
    requires s.time + 10 * Ticks(pre) >= s.boostAt
    requires Legal(s, pre) && Legal(Run(s, pre), post) && CountSchedules(Run(s, pre), post) >= n
    ensures Dispatched(s, pre + post, t)
    decreases |pre|
  {
    hide Tops, Apply, Inv, Enabled, Schedules, PreSchedule;
    if pre == [] {
      assert pre + post == post;
      DueBound(s, post, t, n);
    } else {
      LegalSplit(s, pre, post);
      var step := pre[0];
      assert (pre + post)[0] == step && (pre + post)[1..] == pre[1..] + post;
      if Schedules(s, step) && PreSchedule(s, step).time >= PreSchedule(s, step).boostAt {
        BoostNow(s, pre + post, t, n);
      } else {
        StillQueued(s, step, t);
        NoBoostStep(s, step);
        StepTime(s, step);
        if Apply(s, step).current != t { WaitBound(Apply(s, step), pre[1..], post, t, n); }
      }
    }
  }

  /**
   No starvation: a queued task runs in every run that has 200 ticks and after them as many
   calls of `schedule` as tasks are ever queued.
   */
  lemma NoStarvation(s: State, pre: seq<Step>, post: seq<Step>, t: Task, n: nat)
    requires Inv(s) && Legal(s, pre + post) && t in Tops(s.queue, 0) && QueuedAtMost(s, pre + post, n) && n >= 1
    requires Ticks(pre) >= 200
    requires Legal(s, pre) && Legal(Run(s, pre), post) && CountSchedules(Run(s, pre), post) >= n
    ensures Dispatched(s, pre + post, t)
  {
    assert s.boostAt <= s.time + BOOST_INTERVAL;
    hide Inv, Legal;
    WaitBound(s, pre, post, t, n);
  }

  // ------------------------------------------------------- a bound in ticks alone

  lemma {:induction false} WakeAllSlices(s: State, xs: seq<Task>, t: Task)
    requires forall x :: x in xs ==> x in s.tasks
    requires forall x :: x in s.tasks ==> s.tasks[x].prio < 4
    requires t in s.tasks
    ensures WakeAll(s, xs).tasks[t].slice == s.tasks[t].slice
    decreases |xs|
  {
    if xs != [] { WakeAllSlices(WakeUp(s, xs[0]), xs[1..], t); }
  }

  ghost function Slice(s: State): nat
    requires s.current in s.tasks
  {
    s.tasks[s.current].slice
  }

  /** A step that does not call `schedule` uses 10 of the current slice if it is a tick, else nothing. */
  lemma SliceUsed(s: State, step: Step)
    requires Inv(s) && Enabled(s, step) && !Schedules(s, step)
    ensures Apply(s, step).current == s.current && s.current in Apply(s, step).tasks
    ensures Slice(Apply(s, step)) + (if step.Tick? then 10 else 0) == Slice(s)
  {
    hide Inv, Schedule;
    SliceBounded(s);
    if step.Tick? {
      WakeAllSlices(s.(time := s.time + 10), step.expired, s.current);
      assert Slice(s) >= 10;
    }
  }

  lemma SliceBounded(s: State)
    requires Inv(s)
    ensures s.current in s.tasks && Slice(s) % 10 == 0 && Slice(s) <= SLICE && s.current !in s.finished
  {
  }

  /** Ten ticks use up a slice, and the next one calls `schedule`. */
  lemma {:induction false} TicksSchedule(s: State, steps: seq<Step>)
    requires Inv(s) && Legal(s, steps)
    ensures s.current in s.tasks && 10 * Ticks(steps) <= 110 * CountSchedules(s, steps) + Slice(s)
    decreases |steps|
  {
    hide Inv, Apply, Enabled, Schedules, Slice;
    SliceBounded(s);
    if steps != [] {
      var r := Apply(s, steps[0]);
      StepKeeps(s, steps[0]);
      TicksSchedule(r, steps[1..]);
      if Schedules(s, steps[0]) {
        SliceBounded(r);
      } else {
        SliceUsed(s, steps[0]);
      }
    }
  }

  /** A run with enough ticks has a first part with exactly `m` of them. */
  lemma {:induction false} SplitAtTick(steps: seq<Step>, m: nat) returns (j: nat)
    requires Ticks(steps) >= m
    ensures j <= |steps| && Ticks(steps[..j]) == m && Ticks(steps[j..]) == Ticks(steps) - m
    decreases |steps|
  {
    if m == 0 {
      assert steps[0..] == steps;
      return 0;
    }
    var rest := steps[1..];
    var i := SplitAtTick(rest, if steps[0].Tick? then m - 1 else m);
    assert steps[..i + 1][1..] == rest[..i] && steps[i + 1..] == rest[i..];
    j := i + 1;
  }

  /** With at most `n` tasks queued, a queued task runs within 200 + 11n ticks. */
  lemma NoStarvationInTicks(s: State, steps: seq<Step>, t: Task, n: nat)
    requires Inv(s) && Legal(s, steps) && t in Tops(s.queue, 0) && QueuedAtMost(s, steps, n) && n >= 1
    requires Ticks(steps) >= 200 + 11 * n
    ensures Dispatched(s, steps, t)
  {
    hide Inv, Legal, Tops, QueuedAtMost, Dispatched, Ticks;
    var j := SplitAtTick(steps, 200);
    var pre, post := steps[..j], steps[j..];
    assert steps == pre + post;
    LegalSplit(s, pre, post);
    RunKeeps(s, pre);
    TicksSchedule(Run(s, pre), post);
    SliceBounded(Run(s, pre));
    NoStarvation(s, pre, post, t, n);
  }
}
