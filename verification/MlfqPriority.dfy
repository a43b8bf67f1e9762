/**
 How priorities move over whole runs: between two boosts a task loses one level for each slice it
 uses up while it runs, and nothing else lowers or raises it.
 */
module MlfqPriority {
  import opened Mlfq
  import opened MlfqRuns
  import opened MlfqEffects

  /** The step takes the CPU from `t` with its slice used up. */
  ghost predicate Expires(s: State, step: Step, t: Task)
    requires Enabled(s, step)
  {
    Schedules(s, step) && s.current == t && s.tasks[t].slice == 0
  }

  /** The step is a tick that `t` runs through. */
  ghost predicate Charges(s: State, step: Step, t: Task)
    requires Enabled(s, step)
  {
    step.Tick? && !Schedules(s, step) && s.current == t
  }

  ghost function Expiries(s: State, steps: seq<Step>, t: Task): nat
    requires Legal(s, steps)
    decreases |steps|
  {
    if steps == [] then 0
    else (if Expires(s, steps[0], t) then 1 else 0) + Expiries(Apply(s, steps[0]), steps[1..], t)
  }

  /** The ticks that `t` runs through, 10 milliseconds each. */
  ghost function Charged(s: State, steps: seq<Step>, t: Task): nat
    requires Legal(s, steps)
    decreases |steps|
  {
    if steps == [] then 0
    else (if Charges(s, steps[0], t) then 1 else 0) + Charged(Apply(s, steps[0]), steps[1..], t)
  }

  /** One step without a boost, on the fields of one task. */
  ghost predicate FieldStep(before: Tcb, after: Tcb, expires: bool, charges: bool) {
    && after.prio == (if expires && before.prio > 0 then before.prio - 1 else before.prio)
    && (after.prio > 0 ==>
          after.slice + (if charges then 10 else 0) == before.slice + (if expires then 100 else 0))
  }

  lemma ScheduleBoosts(p: State)
    requires p.current in p.tasks && p.tasks[p.current].prio < 4
    ensures Schedule(p).boostAt == if p.time >= p.boostAt then p.time + BOOST_INTERVAL else p.boostAt
  {
    hide Choose;
  }

  lemma ScheduleFields(s: State, step: Step, t: Task)
    requires Inv(s) && Enabled(s, step) && Schedules(s, step) && t in s.tasks && t != IDLE
    requires Apply(s, step).boostAt == s.boostAt
    ensures t in Apply(s, step).tasks
    ensures FieldStep(s.tasks[t], Apply(s, step).tasks[t], Expires(s, step, t), false)
  {
    hide Inv, Base, Apply, Schedule, PreSchedule, Schedules;
    var p := PreSchedule(s, step);
    ScheduleStep(s, step);
    PreScheduleFields(s, step);
    PreScheduleBase(s, step);
    ScheduleBoosts(p);
    if t == s.current { OutgoingTask(p); } else { OtherTasks(p, t); }
  }

  lemma PlainFields(s: State, step: Step, t: Task)
    requires Inv(s) && Enabled(s, step) && !Schedules(s, step) && t in s.tasks && t in Apply(s, step).tasks
    ensures FieldStep(s.tasks[t], Apply(s, step).tasks[t], false, Charges(s, step, t))
  {
    hide Base, Schedule, WakeAll;
    PreScheduleFields(s, step);
    if step.Tick? { TickWithinSlice(s, step.expired); }
  }

  lemma {:induction false} GoneStaysGone(s: State, steps: seq<Step>, t: Task)
    requires Legal(s, steps) && t !in s.tasks && Create(t) !in steps
    ensures t !in Run(s, steps).tasks
    decreases |steps|
  {
    if steps != [] {
      StepAddsNone(s, steps[0], t);
      hide Apply, Enabled;
      GoneStaysGone(Apply(s, steps[0]), steps[1..], t);
    }
  }

  lemma StepAddsNone(s: State, step: Step, t: Task)
    requires Enabled(s, step) && t !in s.tasks && step != Create(t)
    ensures t !in Apply(s, step).tasks
  {
    hide Schedule, WakeAll;
    PreScheduleFields(s, step);
    if Schedules(s, step) {
      ScheduleStep(s, step);
      ScheduleLists(PreSchedule(s, step));
    }
  }

  /** The priority after `k` expired slices. */
  function Fallen(prio: nat, k: nat): nat { if k >= prio then 0 else prio - k }

  /**
   In a run without a boost the priority of a task falls by the number of times it left the CPU with its
   slice used up, and stops at 0. While it is above 0, the time the task has run is exactly what its
   levels and its slice have lost.
   */
  lemma {:induction false} PriorityFalls(s: State, steps: seq<Step>, t: Task)
    requires Inv(s) && Legal(s, steps) && !BoostedIn(s, steps)
    requires t in s.tasks && t != IDLE && Create(t) !in steps && t in Run(s, steps).tasks
    ensures var r := Run(s, steps);
      && r.tasks[t].prio == Fallen(s.tasks[t].prio, Expiries(s, steps, t))
      && (r.tasks[t].prio > 0 ==>
            10 * Charged(s, steps, t) + r.tasks[t].slice
            == s.tasks[t].slice + 100 * (s.tasks[t].prio - r.tasks[t].prio))
    decreases |steps|
  {
    if steps != [] {
      hide Inv, Apply, Enabled, Schedules, Expires, Charges;
      var step, r := steps[0], Apply(s, steps[0]);
      StepKeeps(s, step);
      if t !in r.tasks { GoneStaysGone(r, steps[1..], t); }
      OneStep(s, step, t);
      PriorityFalls(r, steps[1..], t);
    }
  }

  lemma OneStep(s: State, step: Step, t: Task)
    requires Inv(s) && Enabled(s, step) && Apply(s, step).boostAt == s.boostAt
    requires t in s.tasks && t in Apply(s, step).tasks && t != IDLE
    ensures FieldStep(s.tasks[t], Apply(s, step).tasks[t], Expires(s, step, t), Charges(s, step, t))
  {
    hide Inv, Apply, FieldStep;
    if Schedules(s, step) { ScheduleFields(s, step, t); } else { PlainFields(s, step, t); }
  }
}
