/**
 The scheduler as a state machine (kernel/task/schedule.c:38-77, kernel/task/fork.c:126-198
 and 281-354, kernel/task/timer.c:76-98) on one CPU, with each kernel operation as one step.
 The ready queues are the abstract values of `Scheduler.ReadyQueues`.
 */
module Mlfq {
  import Seqs
  import opened Rings
  import opened Scheduler

  type Task = Node

  const SLICE: nat := 100          // TIME_SLICE_LENGTH
  const BOOST_INTERVAL: nat := 2000

  datatype Life = RUNNING | SLEEPING | ZOMBIE

  datatype Tcb = Tcb(life: Life, prio: nat, slice: nat)

  datatype State = State(
    tasks: map<Task, Tcb>,
    queue: Queues,
    current: Task,
    blocked: seq<Task>,
    finished: seq<Task>,
    time: nat,
    boostAt: nat)

  /** The distinguished tasks: the idle task of the CPU, `init_task` and `cleaner_task`. */
  const IDLE: Task := 0
  const INIT: Task := 1
  const CLEANER: Task := 2

  datatype Step =
    | Tick(expired: seq<Task>)   // clock_isr, with the tasks whose timers expired
    | Yield                      // schedule
    | Sleep                      // task_sleep
    | Wake(task: Task)           // task_wakeup
    | Exit                       // task_exit
    | Create(task: Task)         // kernel_fork, kthread_create
    | Reap                       // one round of cleaner_worker

  function Enqueue(q: Queues, t: Task, p: nat): Queues
    requires p < 4
  {
    q[p := q[p] + [t]]
  }

  // ------------------------------------------------------------ schedule

  function Boosted(tasks: map<Task, Tcb>, raised: seq<Task>): map<Task, Tcb> {
    map t | t in tasks :: if t in raised then tasks[t].(prio := MAX_PRIORITY) else tasks[t]
  }

  /** Lines 41-44: the periodic `reset_priority`. */
  function Boost(s: State): State {
    if s.time >= s.boostAt then
      s.(tasks := Boosted(s.tasks, Tops(s.queue, 0)), queue := [[], [], [], Tops(s.queue, 0)],
         boostAt := s.time + BOOST_INTERVAL)
    else s
  }

  /** `chose_next_task`: the task to run next and the queues without it. */
  function Choose(q: Queues): (Task, Queues) {
    if q[3] != [] then (q[3][0], q[3 := q[3][1..]])
    else if q[2] != [] then (q[2][0], q[2 := q[2][1..]])
    else if q[1] != [] then (q[1][0], q[1 := q[1][1..]])
    else if q[0] != [] then (q[0][0], q[0 := q[0][1..]])
    else (IDLE, q)
  }

  /** Lines 56-63: an expired slice costs one priority level. */
  function Decay(c: Tcb): Tcb {
    if c.prio != 0 then if c.slice == 0 then c.(slice := SLICE, prio := c.prio - 1) else c
    else c.(slice := SLICE)
  }

  /** The current task leaves the CPU. */
  function Retire(s: State, q: Queues): State
    requires s.current in s.tasks && s.tasks[s.current].prio < 4
  {
    var c := Decay(s.tasks[s.current]);
    s.(tasks := s.tasks[s.current := c], queue := if c.life == RUNNING then Enqueue(q, s.current, c.prio) else q)
  }

  function Schedule(s: State): State
    requires s.current in s.tasks && s.tasks[s.current].prio < 4
  {
    var b := Boost(s);
    var (next, q) := Choose(b.queue);
    if next == IDLE && s.current == IDLE then b
    else if s.current == IDLE then b.(queue := q, current := next)
    else Retire(b, q).(current := next)
  }

  // --------------------------------------------------------------- steps

  function WakeUp(s: State, t: Task): State
    requires t in s.tasks && s.tasks[t].prio < 4
  {
    var c := s.tasks[t];
    if c.life == RUNNING then s
    else s.(tasks := s.tasks[t := c.(life := RUNNING)], blocked := Seqs.Remove(s.blocked, t),
            queue := Enqueue(s.queue, t, c.prio))
  }

  function WakeAll(s: State, ts: seq<Task>): (r: State)
    requires forall t :: t in ts ==> t in s.tasks
    requires forall t :: t in s.tasks ==> s.tasks[t].prio < 4
    ensures r.tasks.Keys == s.tasks.Keys && r.current == s.current
    ensures forall t :: t in r.tasks ==> r.tasks[t].prio == s.tasks[t].prio
    decreases |ts|
  {
    if ts == [] then s else WakeAll(WakeUp(s, ts[0]), ts[1..])
  }

  function SetLife(s: State, life: Life): State
    requires s.current in s.tasks
  {
    s.(tasks := s.tasks[s.current := s.tasks[s.current].(life := life)])
  }

  /** Which steps the kernel can take: only sleeping or runnable tasks are woken, idle never sleeps, forks or exits. */
  ghost predicate Enabled(s: State, step: Step) {
    && s.current in s.tasks && (forall t :: t in s.tasks ==> s.tasks[t].prio < 4)
    && match step
       case Tick(ts) => forall t :: t in ts ==> t in s.tasks && s.tasks[t].life != ZOMBIE
       case Yield => true
       case Sleep => s.current != IDLE
       case Wake(t) => t in s.tasks && s.tasks[t].life != ZOMBIE
       case Exit => s.current != IDLE && s.current != CLEANER && CLEANER in s.tasks
       case Create(t) => s.current != IDLE && t !in s.tasks && t != IDLE
       case Reap => s.current == CLEANER
  }

  function Apply(s: State, step: Step): State
    requires Enabled(s, step)
  {
    match step
    case Tick(ts) =>
      var w := WakeAll(s.(time := s.time + 10), ts);
      var c := w.tasks[w.current];
      if c.slice == 0 then Schedule(w) else w.(tasks := w.tasks[w.current := c.(slice := Minus10(c.slice))])
    case Yield => Schedule(s)
    case Sleep => Schedule(SetLife(s.(blocked := [s.current] + s.blocked), SLEEPING))
    case Wake(t) => WakeUp(s, t)
    case Exit =>
      if s.current == INIT then Schedule(SetLife(s, ZOMBIE))
      else Schedule(SetLife(WakeUp(s.(finished := [s.current] + s.finished), CLEANER), ZOMBIE))
    case Create(t) =>
      var p := s.tasks[s.current].prio;
      s.(tasks := s.tasks[t := Tcb(RUNNING, p, SLICE)], queue := Enqueue(s.queue, t, p))
    case Reap =>
      s.(tasks := map t | t in s.tasks && t !in s.finished :: s.tasks[t], finished := [])
  }

  /** `timer_slice -= 10` on an unsigned 16-bit field. */
  function Minus10(x: nat): nat { (x - 10) % 0x1_0000 }

  // ----------------------------------------------------------- the invariant

  ghost function QueueBag(q: Queues): multiset<Task> {
    multiset(q[3]) + multiset(q[2]) + multiset(q[1]) + multiset(q[0])
  }

  /** All list memberships of tasks: ready queues, block lists and the finish list. */
  ghost function Memberships(s: State): multiset<Task> {
    QueueBag(s.queue) + multiset(s.blocked) + multiset(s.finished)
  }

  /** Where a task has to be: nowhere for idle, for the running task and for an exited `init`, else on one list. */
  ghost function Expected(s: State, t: Task): nat {
    if t == IDLE || t !in s.tasks then 0
    else if t == s.current && s.tasks[t].life == RUNNING then 0
    else if t == INIT && s.tasks[t].life == ZOMBIE then 0
    else 1
  }

  ghost predicate OnePlace(s: State) {
    forall t :: Memberships(s)[t] == Expected(s, t)
  }

  /** Queued tasks are runnable and in the queue of their priority; block and finish lists hold sleepers and zombies. */
  ghost predicate RightPlace(s: State) {
    && (forall i, t :: 0 <= i < 4 && t in s.queue[i] ==>
          t in s.tasks && s.tasks[t].life == RUNNING && s.tasks[t].prio == i)
    && (forall t :: t in s.blocked ==> t in s.tasks && s.tasks[t].life == SLEEPING)
    && (forall t :: t in s.finished ==> t in s.tasks && s.tasks[t].life == ZOMBIE)
  }

  ghost predicate Slices(s: State) {
    forall t :: t in s.tasks ==> s.tasks[t].prio < 4 && s.tasks[t].slice % 10 == 0 && s.tasks[t].slice <= SLICE
  }

  ghost predicate Special(s: State) {
    && IDLE in s.tasks && s.tasks[IDLE].life == RUNNING && s.tasks[IDLE].slice == 0
    && CLEANER in s.tasks && s.tasks[CLEANER].life != ZOMBIE
    && s.current in s.tasks && s.boostAt <= s.time + BOOST_INTERVAL
  }

  /** Holds also in the middle of a step, when the current task is already asleep or a zombie. */
  ghost predicate Base(s: State) {
    OnePlace(s) && RightPlace(s) && Slices(s) && Special(s)
  }

  ghost predicate Inv(s: State) {
    Base(s) && s.tasks[s.current].life == RUNNING
  }

  lemma BoostBag(q: Queues)
    ensures QueueBag([[], [], [], Tops(q, 0)]) == QueueBag(q)
  {
    assert Tops(q, 2) == q[3] + q[2];
    assert Tops(q, 1) == q[3] + q[2] + q[1];
  }

  lemma TopsQueued(q: Queues, t: Task)
    ensures t in Tops(q, 0) <==> exists i :: 0 <= i < 4 && t in q[i]
  {
    assert Tops(q, 2) == q[3] + q[2];
    assert Tops(q, 1) == q[3] + q[2] + q[1];
    assert t in q[3] || t in q[2] || t in q[1] || t in q[0] <==> exists i :: 0 <= i < 4 && t in q[i];
  }

  /** Lists and lives of `s` and `r` agree. */
  ghost predicate SameLives(s: State, r: State) {
    r.tasks.Keys == s.tasks.Keys && forall t :: t in s.tasks ==> r.tasks[t].life == s.tasks[t].life
  }

  lemma OnePlaceSame(s: State, r: State)
    requires OnePlace(s) && SameLives(s, r) && r.current == s.current && Memberships(r) == Memberships(s)
    ensures OnePlace(r)
  {
    forall t ensures Memberships(r)[t] == Expected(r, t) {
      assert Memberships(s)[t] == Expected(s, t);
    }
  }

  lemma BoostRight(s: State)
    requires RightPlace(s) && s.time >= s.boostAt
    ensures RightPlace(Boost(s))
  {
    forall t ensures t in Tops(s.queue, 0) <==> exists i :: 0 <= i < 4 && t in s.queue[i] { TopsQueued(s.queue, t); }
  }

  lemma BoostKeeps(s: State)
    requires Base(s)
    ensures Base(Boost(s)) && Boost(s).current == s.current && SameLives(s, Boost(s))
  {
    hide OnePlace, RightPlace, Memberships, QueueBag, Tops;
    if s.time >= s.boostAt {
      var b := Boost(s);
      BoostBagOf(s);
      OnePlaceSame(s, b);
      BoostRight(s);
    }
  }

  lemma BoostBagOf(s: State)
    ensures Memberships(Boost(s)) == Memberships(s)
  {
    BoostBag(s.queue);
  }

  lemma NotQueued(s: State, t: Task)
    requires OnePlace(s) && Expected(s, t) == 0
    ensures forall i :: 0 <= i < 4 ==> t !in s.queue[i]
  {
    assert Memberships(s)[t] == 0;
  }

  /** `chose_next_task` removes its result from the queues, or finds them all empty. */
  lemma ChooseSpec(q: Queues)
    ensures var (next, q') := Choose(q);
      if Tops(q, 0) == [] then next == IDLE && q' == q
      else next == Tops(q, 0)[0] && exists i :: 0 <= i < 4 && Dispatches(q, q', i, next)
  {
    assert Tops(q, 2) == q[3] + q[2];
    assert Tops(q, 1) == q[3] + q[2] + q[1];
    var (next, q') := Choose(q);
    if Tops(q, 0) != [] {
      var i := if q[3] != [] then 3 else if q[2] != [] then 2 else if q[1] != [] then 1 else 0;
      assert Dispatches(q, q', i, next);
    }
  }

  lemma DispatchBag(q: Queues, q': Queues, i: nat, x: Task)
    requires i < 4 && Dispatches(q, q', i, x)
    ensures QueueBag(q) == QueueBag(q') + multiset{x}
  {
    assert q[i] == [x] + q'[i];
    assert multiset(q[i]) == multiset{x} + multiset(q'[i]);
  }

  lemma EnqueueBag(q: Queues, t: Task, p: nat)
    requires p < 4
    ensures QueueBag(Enqueue(q, t, p)) == QueueBag(q) + multiset{t}
  {
  }

  lemma SwitchBag(s: State, next: Task, q: Queues)
    requires Choose(s.queue) == (next, q)
    ensures next != IDLE ==> Memberships(s) == Memberships(s.(queue := q)) + multiset{next}
    ensures next == IDLE && IDLE !in Tops(s.queue, 0) ==> q == s.queue
  {
    ChooseSpec(s.queue);
    if Tops(s.queue, 0) != [] {
      var i :| 0 <= i < 4 && Dispatches(s.queue, q, i, next);
      DispatchBag(s.queue, q, i, next);
    }
  }

  lemma RetireBag(s: State, q: Queues)
    requires s.current in s.tasks && s.tasks[s.current].prio < 4
    ensures Memberships(Retire(s, q))
      == Memberships(s.(queue := q)) + if s.tasks[s.current].life == RUNNING then multiset{s.current} else multiset{}
  {
    var c := Decay(s.tasks[s.current]);
    if c.life == RUNNING { EnqueueBag(q, s.current, c.prio); }
  }

  lemma RetireLives(s: State, q: Queues)
    requires s.current in s.tasks && s.tasks[s.current].prio < 4
    ensures SameLives(s, Retire(s, q)) && Retire(s, q).current == s.current
  {
  }

  /** The next task was queued, so it is runnable and not the current task. */
  lemma NextIsQueued(s: State, next: Task, q: Queues)
    requires Base(s) && Choose(s.queue) == (next, q) && next != IDLE
    ensures next in s.tasks && s.tasks[next].life == RUNNING && next != s.current && Memberships(s)[next] == 1
  {
    ChooseSpec(s.queue);
    var i :| 0 <= i < 4 && Dispatches(s.queue, q, i, next);
    assert next in s.queue[i];
    assert Memberships(s)[next] >= 1;
  }

  ghost function One(present: bool, t: Task): multiset<Task> { if present then multiset{t} else multiset{} }

  /** The lists lose the next task and gain the old one if it is still runnable: every task keeps its one place. */
  lemma SwitchCount(s: State, r: State)
    requires OnePlace(s) && SameLives(s, r) && s.current in s.tasks && r.current in s.tasks
    requires s.current == IDLE ==> s.tasks[IDLE].life == RUNNING
    requires s.tasks[r.current].life == RUNNING && (r.current != IDLE ==> r.current != s.current)
    requires Memberships(s) + One(s.current != IDLE && s.tasks[s.current].life == RUNNING, s.current)
      == Memberships(r) + One(r.current != IDLE, r.current)
    ensures OnePlace(r)
  {
    hide Memberships;
    var back := One(s.current != IDLE && s.tasks[s.current].life == RUNNING, s.current);
    var gone := One(r.current != IDLE, r.current);
    forall t ensures Memberships(r)[t] == Expected(r, t) {
      assert Memberships(s)[t] == Expected(s, t);
      assert (Memberships(s) + back)[t] == (Memberships(r) + gone)[t];
    }
  }

  lemma SwitchOnePlace(s: State, next: Task, q: Queues, r: State)
    requires Base(s) && Choose(s.queue) == (next, q) && (next != IDLE || s.current != IDLE)
    requires r == (if s.current == IDLE then s.(queue := q) else Retire(s, q)).(current := next)
    ensures OnePlace(r)
  {
    hide OnePlace, RightPlace, QueueBag, Choose;
    IdleNotQueued(s);
    SwitchBag(s, next, q);
    if s.current != IDLE { RetireBag(s, q); RetireLives(s, q); }
    if next != IDLE { NextIsQueued(s, next, q); }
    SwitchCount(s, r);
  }

  lemma IdleNotQueued(s: State)
    requires OnePlace(s)
    ensures IDLE !in Tops(s.queue, 0)
  {
    NotQueued(s, IDLE);
    TopsQueued(s.queue, IDLE);
  }

  lemma SwitchRightPlace(s: State, next: Task, q: Queues, r: State)
    requires RightPlace(s) && s.current in s.tasks && s.tasks[s.current].prio < 4 && Choose(s.queue) == (next, q)
    requires forall i :: 0 <= i < 4 ==> s.current !in s.queue[i]
    requires r == (if s.current == IDLE then s.(queue := q) else Retire(s, q)).(current := next)
    ensures RightPlace(r)
  {
    forall i, t | 0 <= i < 4 && t in q[i] ensures t in s.queue[i] {
      ChooseSpec(s.queue);
    }
  }

  lemma ScheduleKeeps(s: State)
    requires Base(s)
    ensures Inv(Schedule(s))
  {
    hide OnePlace, RightPlace, Boost, Choose;
    var b := Boost(s);
    BoostKeeps(s);
    var (next, q) := Choose(b.queue);
    if next != IDLE || b.current != IDLE {
      var r := Schedule(s);
      SwitchOnePlace(b, next, q, r);
      CurrentNotQueued(b);
      SwitchRightPlace(b, next, q, r);
      if next != IDLE { NextIsQueued(b, next, q); }
    }
  }

  lemma CurrentNotQueued(s: State)
    requires Base(s)
    ensures forall i :: 0 <= i < 4 ==> s.current !in s.queue[i]
  {
    if s.tasks[s.current].life == RUNNING { NotQueued(s, s.current); }
  }

  // ------------------------------------------------- every step keeps the invariant

  lemma SleeperIsBlocked(s: State, t: Task)
    requires Base(s) && t in s.tasks && s.tasks[t].life == SLEEPING
    ensures t in s.blocked && multiset(s.blocked)[t] == 1
    ensures forall i :: 0 <= i < 4 ==> t !in s.queue[i]
  {
    assert Memberships(s)[t] == Expected(s, t) == 1;
    assert t !in s.finished;
  }

  lemma WakeBag(s: State, t: Task)
    requires Base(s) && t in s.tasks && s.tasks[t].life == SLEEPING
    ensures Memberships(WakeUp(s, t)) == Memberships(s)
  {
    SleeperIsBlocked(s, t);
    Seqs.RemoveBag(s.blocked, t);
    EnqueueBag(s.queue, t, s.tasks[t].prio);
  }

  lemma WakeRight(s: State, t: Task)
    requires Base(s) && t in s.tasks && s.tasks[t].life == SLEEPING
    ensures RightPlace(WakeUp(s, t))
  {
    SleeperIsBlocked(s, t);
    var w := WakeUp(s, t);
    Seqs.RemoveBag(s.blocked, t);
    forall x | x in w.blocked ensures x in s.blocked && x != t {
      assert multiset(s.blocked)[x] == multiset(w.blocked)[x] + multiset{t}[x];
    }
  }

  lemma WakeKeeps(s: State, t: Task)
    requires Base(s) && t in s.tasks && s.tasks[t].life != ZOMBIE
    requires t == s.current ==> s.tasks[t].life == RUNNING
    ensures var w := WakeUp(s, t);
      Base(w) && w.current == s.current && w.tasks.Keys == s.tasks.Keys && w.tasks[w.current] == s.tasks[s.current]
    ensures forall x :: x in s.tasks ==> (WakeUp(s, t).tasks[x].life == ZOMBIE <==> s.tasks[x].life == ZOMBIE)
  {
    if s.tasks[t].life == SLEEPING {
      WakeCount(s, t);
      WakeRight(s, t);
      hide RightPlace, OnePlace;
    }
  }

  lemma WakeCount(s: State, t: Task)
    requires Base(s) && t in s.tasks && s.tasks[t].life == SLEEPING && t != s.current
    ensures OnePlace(WakeUp(s, t))
  {
    hide RightPlace, Memberships;
    var w := WakeUp(s, t);
    WakeBag(s, t);
    forall x ensures Memberships(w)[x] == Expected(w, x) {
      assert Memberships(s)[x] == Expected(s, x);
    }
  }

  lemma {:induction false} WakeAllKeeps(s: State, ts: seq<Task>)
    requires Inv(s) && forall t :: t in ts ==> t in s.tasks && s.tasks[t].life != ZOMBIE
    ensures var w := WakeAll(s, ts); Inv(w) && w.current == s.current && w.tasks[w.current] == s.tasks[s.current]
    decreases |ts|
  {
    if ts != [] {
      hide Base;
      assert Base(s);
      var w := WakeUp(s, ts[0]);
      BaseSlices(s);
      WakeKeeps(s, ts[0]);
      WakeAllKeeps(w, ts[1..]);
    }
  }

  lemma BaseSlices(s: State)
    requires Base(s)
    ensures Slices(s) && s.current in s.tasks
  {
  }

  lemma SleepKeeps(s: State)
    requires Inv(s) && s.current != IDLE
    ensures Base(SetLife(s.(blocked := [s.current] + s.blocked), SLEEPING))
  {
    var r := SetLife(s.(blocked := [s.current] + s.blocked), SLEEPING);
    CurrentNowhere(s);
    assert Memberships(r) == Memberships(s) + multiset{s.current};
    CountWith(s, r, multiset{s.current});
  }

  lemma ExitKeeps(s: State)
    requires Inv(s) && s.current != IDLE && s.current != CLEANER
    ensures Base(SetLife(if s.current == INIT then s else s.(finished := [s.current] + s.finished), ZOMBIE))
  {
    var r := SetLife(if s.current == INIT then s else s.(finished := [s.current] + s.finished), ZOMBIE);
    CurrentNowhere(s);
    ExitBag(s);
    hide OnePlace, Memberships;
    CountWith(s, r, One(s.current != INIT, s.current));
  }

  lemma ExitBag(s: State)
    requires s.current in s.tasks
    ensures var r := SetLife(if s.current == INIT then s else s.(finished := [s.current] + s.finished), ZOMBIE);
      Memberships(r) == Memberships(s) + One(s.current != INIT, s.current)
  {
  }

  lemma CurrentNowhere(s: State)
    requires Inv(s)
    ensures forall i :: 0 <= i < 4 ==> s.current !in s.queue[i]
    ensures s.current !in s.blocked && s.current !in s.finished
  {
    assert Memberships(s)[s.current] == 0;
  }

  /** The current task stops being runnable and goes where its new life puts it. */
  lemma CountWith(s: State, r: State, more: multiset<Task>)
    requires OnePlace(s) && s.current in s.tasks && s.current != IDLE && s.tasks[s.current].life == RUNNING
    requires r.current == s.current && r.tasks.Keys == s.tasks.Keys && r.tasks[r.current].life != RUNNING
    requires forall t :: t in s.tasks && t != s.current ==> r.tasks[t] == s.tasks[t]
    requires Memberships(r) == Memberships(s) + more
    requires more == One(!(s.current == INIT && r.tasks[s.current].life == ZOMBIE), s.current)
    ensures OnePlace(r)
  {
    hide Memberships;
    forall t ensures Memberships(r)[t] == Expected(r, t) {
      assert Memberships(s)[t] == Expected(s, t);
    }
  }

  lemma CreateKeeps(s: State, t: Task)
    requires Inv(s) && Enabled(s, Create(t))
    ensures Inv(Apply(s, Create(t)))
  {
    CreateCount(s, t);
    CreateRight(s, t);
    hide OnePlace, RightPlace;
  }

  lemma CreateCount(s: State, t: Task)
    requires OnePlace(s) && Enabled(s, Create(t))
    ensures OnePlace(Apply(s, Create(t)))
  {
    hide QueueBag, Enqueue;
    var r := Apply(s, Create(t));
    EnqueueBag(s.queue, t, s.tasks[s.current].prio);
    assert Memberships(r) == Memberships(s) + multiset{t};
    forall x ensures Memberships(r)[x] == Expected(r, x) {
      assert Memberships(s)[x] == Expected(s, x);
    }
  }

  lemma CreateRight(s: State, t: Task)
    requires RightPlace(s) && Enabled(s, Create(t))
    ensures RightPlace(Apply(s, Create(t)))
  {
  }

  lemma ReapKeeps(s: State)
    requires Inv(s) && Enabled(s, Reap)
    ensures Inv(Apply(s, Reap))
  {
    ReapCount(s);
    hide OnePlace;
  }

  lemma ReapCount(s: State)
    requires Inv(s) && Enabled(s, Reap)
    ensures OnePlace(Apply(s, Reap))
  {
    var r := Apply(s, Reap);
    assert Memberships(s) == Memberships(r) + multiset(s.finished);
    forall t ensures Memberships(r)[t] == Expected(r, t) {
      assert Memberships(s)[t] == Expected(s, t);
    }
  }

  /** Every step from a state that satisfies the invariant leads to one that does. */
  lemma StepKeeps(s: State, step: Step)
    requires Inv(s) && Enabled(s, step)
    ensures Inv(Apply(s, step))
  {
    match step
    case Yield => ScheduleKeeps(s);
    case Sleep => SleepKeeps(s); ScheduleKeeps(SetLife(s.(blocked := [s.current] + s.blocked), SLEEPING));
    case Wake(t) => WakeKeeps(s, t);
    case Create(t) => CreateKeeps(s, t);
    case Reap => ReapKeeps(s);
    case Exit => ExitStep(s);
    case Tick(ts) => TickKeeps(s, ts);
  }

  lemma ExitStep(s: State)
    requires Inv(s) && Enabled(s, Exit)
    ensures Inv(Apply(s, Exit))
  {
    ExitKeeps(s);
    if s.current == INIT {
      ScheduleKeeps(SetLife(s, ZOMBIE));
    } else {
      var f := s.(finished := [s.current] + s.finished);
      var z := SetLife(f, ZOMBIE);
      WakeKeeps(z, CLEANER);
      assert SetLife(WakeUp(f, CLEANER), ZOMBIE) == WakeUp(z, CLEANER);
      ScheduleKeeps(WakeUp(z, CLEANER));
    }
  }

  lemma TickKeeps(s: State, ts: seq<Task>)
    requires Inv(s) && Enabled(s, Tick(ts))
    ensures Inv(Apply(s, Tick(ts)))
  {
    hide Base, Schedule, WakeAll, Minus10;
    var s1 := s.(time := s.time + 10);
    LaterKeeps(s);
    WakeAllKeeps(s1, ts);
    var w := WakeAll(s1, ts);
    if w.tasks[w.current].slice == 0 {
      ScheduleKeeps(w);
    } else {
      SliceKeeps(w);
    }
  }

  /** The tick never underflows: a nonzero slice is a multiple of 10. */
  lemma TickExact(s: State)
    requires Inv(s) && s.tasks[s.current].slice != 0
    ensures Minus10(s.tasks[s.current].slice) == s.tasks[s.current].slice - 10
    ensures (s.tasks[s.current].slice - 10) % 10 == 0
  {
    Minus10Exact(s.tasks[s.current].slice);
  }

  lemma Minus10Exact(x: nat)
    requires 0 < x <= SLICE && x % 10 == 0
    ensures Minus10(x) == x - 10 && (x - 10) % 10 == 0
  {
  }

  lemma LaterKeeps(s: State)
    requires Inv(s)
    ensures Inv(s.(time := s.time + 10))
  {
    OnePlaceSame(s, s.(time := s.time + 10));
    hide OnePlace;
  }

  lemma RightPlaceSame(s: State, r: State)
    requires RightPlace(s) && r.queue == s.queue && r.blocked == s.blocked && r.finished == s.finished
    requires SameLives(s, r) && forall t :: t in s.tasks ==> r.tasks[t].prio == s.tasks[t].prio
    ensures RightPlace(r)
  {
  }

  lemma SliceKeeps(s: State)
    requires Inv(s) && s.tasks[s.current].slice != 0
    ensures Inv(s.(tasks := s.tasks[s.current := s.tasks[s.current].(slice := Minus10(s.tasks[s.current].slice))]))
  {
    hide OnePlace, RightPlace, Minus10;
    var r := s.(tasks := s.tasks[s.current := s.tasks[s.current].(slice := Minus10(s.tasks[s.current].slice))]);
    TickExact(s);
    OnePlaceSame(s, r);
    RightPlaceSame(s, r);
  }
}
