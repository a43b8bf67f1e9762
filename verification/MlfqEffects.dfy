/**
 What each kernel operation does to the task fields and to the lists, said in terms of the state
 before and after it.
 */
module MlfqEffects {
  import Seqs
  import opened Scheduler
  import opened Mlfq
  import opened MlfqRuns

  /** `r` is `s` without its element `x` at one place. */
  ghost predicate TakenOut(s: seq<Task>, x: Task, r: seq<Task>) {
    exists k :: 0 <= k < |s| && s[k] == x && r == s[..k] + s[k + 1..]
  }

  /** Task `t` has the CPU, or it is in the queue of its priority. */
  ghost predicate Ready(s: State, t: Task) {
    t == s.current || (t in s.tasks && s.tasks[t].prio < 4 && t in s.queue[s.tasks[t].prio])
  }

  // ------------------------------------------------------------------ waking

  lemma {:induction false} RemovedAt(s: seq<Task>, x: Task) returns (k: nat)
    requires x in s
    ensures k < |s| && s[k] == x && Seqs.Remove(s, x) == s[..k] + s[k + 1..]
  {
    if s[0] == x { return 0; }
    var i := RemovedAt(s[1..], x);
    OneFurther(s, i);
    return i + 1;
  }

  lemma OneFurther(s: seq<Task>, i: nat)
    requires i + 1 < |s|
    ensures [s[0]] + (s[1..][..i] + s[1..][i + 1..]) == s[..i + 1] + s[i + 2..]
  {
    assert s[1..][i + 1..] == s[i + 2..];
    assert [s[0]] + s[1..][..i] == s[..i + 1];
  }

  /**
   `task_wakeup`: a sleeper becomes runnable, leaves its block list and goes to the end of the queue of
   its unchanged priority; nothing else changes, and nothing at all for a task that is runnable already.
   */
  lemma WakeEffect(s: State, t: Task)
    requires Inv(s) && Enabled(s, Wake(t))
    ensures s.tasks[t].life == RUNNING ==> Apply(s, Wake(t)) == s
    ensures s.tasks[t].life == SLEEPING ==>
      var r, p := Apply(s, Wake(t)), s.tasks[t].prio;
      && r.tasks == s.tasks[t := Tcb(RUNNING, p, s.tasks[t].slice)]
      && TakenOut(s.blocked, t, r.blocked) && t !in r.blocked
      && r.queue[p] == s.queue[p] + [t] && (forall i :: 0 <= i < 4 && i != p ==> r.queue[i] == s.queue[i])
      && r.finished == s.finished && r.current == s.current && r.time == s.time && r.boostAt == s.boostAt
  {
    if s.tasks[t].life == SLEEPING { Unblocked(s, t); }
    hide Base;
  }

  lemma Unblocked(s: State, t: Task)
    requires Base(s) && t in s.tasks && s.tasks[t].life == SLEEPING
    ensures var b := Seqs.Remove(s.blocked, t); TakenOut(s.blocked, t, b) && t !in b
  {
    hide Base;
    SleeperIsBlocked(s, t);
    OnceRemoved(s.blocked, t);
  }

  lemma OnceRemoved(b: seq<Task>, t: Task)
    requires multiset(b)[t] == 1
    ensures TakenOut(b, t, Seqs.Remove(b, t)) && t !in Seqs.Remove(b, t)
  {
    assert t in multiset(b);
    var k := RemovedAt(b, t);
    Seqs.RemoveBag(b, t);
    var r: seq<Task> := Seqs.Remove(b, t);
    assert multiset(b)[t] == multiset(r)[t] + multiset{t}[t];
    assert multiset(r)[t] == 0;
  }

  /** `r` is `s` with the tasks of `ts` awake: each of them is runnable, and every other task is as it was. */
  ghost predicate Awake(s: State, ts: seq<Task>, r: State) {
    && r.tasks.Keys == s.tasks.Keys
    && (forall t :: t in s.tasks ==> r.tasks[t].prio == s.tasks[t].prio && r.tasks[t].slice == s.tasks[t].slice)
    && (forall t :: t in s.tasks ==> r.tasks[t].life == if t in ts then RUNNING else s.tasks[t].life)
    && (forall i :: 0 <= i < 4 ==> s.queue[i] <= r.queue[i])
    && r.finished == s.finished && r.current == s.current && r.time == s.time && r.boostAt == s.boostAt
  }

  lemma {:induction false} WakeAllAwake(s: State, ts: seq<Task>)
    requires forall t :: t in ts ==> t in s.tasks
    requires forall t :: t in s.tasks ==> s.tasks[t].prio < 4
    ensures Awake(s, ts, WakeAll(s, ts))
    decreases |ts|
  {
    if ts != [] {
      var w := WakeUp(s, ts[0]);
      assert Awake(s, ts[..1], w);
      WakeAllAwake(w, ts[1..]);
      AwakeJoin(s, ts, w, WakeAll(s, ts));
    }
  }

  lemma AwakeJoin(s: State, ts: seq<Task>, w: State, r: State)
    requires ts != [] && Awake(s, ts[..1], w) && Awake(w, ts[1..], r)
    ensures Awake(s, ts, r)
  {
    forall t ensures t in ts <==> t in ts[..1] || t in ts[1..] {
      assert ts == ts[..1] + ts[1..];
    }
    forall i | 0 <= i < 4 ensures s.queue[i] <= r.queue[i] {
      assert s.queue[i] <= w.queue[i] <= r.queue[i];
    }
  }

  /** A runnable task other than idle has the CPU or is queued. */
  lemma RunnableIsReady(s: State, t: Task)
    requires Inv(s) && t in s.tasks && t != IDLE && s.tasks[t].life == RUNNING
    ensures Ready(s, t)
  {
    OnePlaceOf(s, t);
  }

  // ---------------------------------------------------------------- schedule

  /** What leaving the CPU costs: an expired slice one level, and at level 0 the slice is always renewed. */
  ghost predicate LeavesCpu(before: Tcb, after: Tcb) {
    && after.life == before.life
    && (before.prio > 0 && before.slice == 0 ==> after.prio == before.prio - 1 && after.slice == 100)
    && (before.prio > 0 && before.slice > 0 ==> after.prio == before.prio && after.slice == before.slice)
    && (before.prio == 0 ==> after.prio == 0 && after.slice == 100)
  }

  ghost predicate IsQueued(s: State, t: Task) {
    exists i :: 0 <= i < 4 && t in s.queue[i]
  }

  /** The outgoing task of `schedule`: its fields, and its place at the end of its new queue if it can still run. */
  lemma OutgoingTask(s: State)
    requires Base(s) && s.current != IDLE
    ensures var c, r := s.current, Schedule(s);
      && r.current != c && c in r.tasks && LeavesCpu(s.tasks[c], r.tasks[c]) && r.tasks[c].prio < 4
      && (s.tasks[c].life == RUNNING ==>
            var q := r.queue[r.tasks[c].prio]; q != [] && q[|q| - 1] == c)
      && (s.tasks[c].life != RUNNING ==> !IsQueued(r, c))
  {
    hide OnePlace, RightPlace, Boost, Choose;
    var b := Boost(s);
    BoostKeeps(s);
    CurrentNotQueued(s);
    CurrentNotQueued(b);
    BoostSpares(s, s.current);
    var (next, q) := Choose(b.queue);
    ChosenNot(b, next, q);
  }

  lemma ChosenNot(b: State, next: Task, q: Queues)
    requires Base(b) && Choose(b.queue) == (next, q) && b.current != IDLE
    ensures next != b.current && forall i :: 0 <= i < 4 ==> b.current !in q[i]
  {
    hide OnePlace, RightPlace;
    CurrentNotQueued(b);
    if next != IDLE { NextIsQueued(b, next, q); }
  }

  /** A boost changes the priority of queued tasks, and nothing else about any task. */
  lemma BoostSpares(s: State, t: Task)
    requires t in s.tasks
    ensures t in Boost(s).tasks
    ensures Boost(s).tasks[t] == if s.time >= s.boostAt && IsQueued(s, t) then s.tasks[t].(prio := 3) else s.tasks[t]
  {
    TopsQueued(s.queue, t);
  }

  /** Every task that does not leave the CPU keeps its fields, except that a boost raises queued ones to the top. */
  lemma OtherTasks(s: State, t: Task)
    requires Base(s) && t in s.tasks && (t != s.current || t == IDLE)
    ensures var r := Schedule(s);
      && r.tasks.Keys == s.tasks.Keys
      && r.tasks[t] == if s.time >= s.boostAt && IsQueued(s, t) then s.tasks[t].(prio := 3) else s.tasks[t]
  {
    hide OnePlace, RightPlace, Boost, Choose;
    BoostSpares(s, t);
    BoostKeeps(s);
  }

  /** `schedule` gives the CPU to the head of the highest queue that is not empty, and to idle when all are empty. */
  lemma NextTask(s: State)
    requires Base(s)
    ensures (forall i :: 0 <= i < 4 ==> s.queue[i] == []) ==> Schedule(s).current == IDLE
    ensures forall i :: 0 <= i < 4 && s.queue[i] != [] && (forall j :: i < j < 4 ==> s.queue[j] == []) ==>
              Schedule(s).current == s.queue[i][0]
  {
    hide OnePlace, RightPlace, Choose, Tops;
    var b := Boost(s);
    BoostKeeps(s);
    var (next, q) := Choose(b.queue);
    FirstOfTops(s.queue);
    BoostFirst(s);
    ChooseSpec(b.queue);
  }

  lemma BoostFirst(s: State)
    ensures Tops(Boost(s).queue, 0) == Tops(s.queue, 0)
  {
    var q := Boost(s).queue;
    assert Tops(q, 2) == q[3] + q[2] && Tops(q, 1) == q[3] + q[2] + q[1];
  }

  lemma FirstOfTops(q: Queues)
    ensures (forall i :: 0 <= i < 4 ==> q[i] == []) ==> Tops(q, 0) == []
    ensures forall i :: 0 <= i < 4 && q[i] != [] && (forall j :: i < j < 4 ==> q[j] == []) ==>
              Tops(q, 0) != [] && Tops(q, 0)[0] == q[i][0]
  {
    assert Tops(q, 2) == q[3] + q[2] && Tops(q, 1) == q[3] + q[2] + q[1];
  }

  // ------------------------------------------------------- the other operations

  lemma ScheduleLists(s: State)
    requires s.current in s.tasks && s.tasks[s.current].prio < 4
    ensures Schedule(s).blocked == s.blocked && Schedule(s).finished == s.finished && Schedule(s).time == s.time
    ensures SameLives(s, Schedule(s))
  {
    hide Choose;
  }

  lemma WakeFields(s: State, x: Task)
    requires x in s.tasks && s.tasks[x].prio < 4
    ensures var w := WakeUp(s, x);
      && w.tasks.Keys == s.tasks.Keys && w.current == s.current && w.boostAt == s.boostAt
      && forall t :: t in s.tasks ==> w.tasks[t].prio == s.tasks[t].prio && w.tasks[t].slice == s.tasks[t].slice
  {
  }

  /** Only the lives of the current task and of woken tasks change before `schedule` is called. */
  lemma PreScheduleFields(s: State, step: Step)
    requires Enabled(s, step)
    ensures var p := PreSchedule(s, step);
      && p.tasks.Keys == s.tasks.Keys && p.current == s.current && p.boostAt == s.boostAt
      && forall t :: t in s.tasks ==> p.tasks[t].prio == s.tasks[t].prio && p.tasks[t].slice == s.tasks[t].slice
  {
    hide WakeAll, WakeUp;
    match step
    case Tick(ts) => WakeAllAwake(s.(time := s.time + 10), ts);
    case Exit => if s.current != INIT { WakeFields(s.(finished := [s.current] + s.finished), CLEANER); }
    case _ =>
  }

  /** `task_sleep`: the current task goes to sleep at the front of the block list and loses the CPU. */
  lemma SleepEffect(s: State)
    requires Inv(s) && s.current != IDLE && Enabled(s, Sleep)
    ensures var c, r := s.current, Apply(s, Sleep);
      && r.tasks.Keys == s.tasks.Keys && r.current != c && !IsQueued(r, c)
      && r.tasks[c].life == SLEEPING && r.blocked == [c] + s.blocked && r.finished == s.finished && r.time == s.time
      && (forall t :: t in s.tasks && t != c ==> r.tasks[t].life == s.tasks[t].life)
  {
    hide Base, Schedule;
    var p := PreSchedule(s, Sleep);
    SleepKeeps(s);
    OutgoingTask(p);
    ScheduleLists(p);
  }

  /**
   `task_exit`: the current task becomes a zombie and loses the CPU. Unless it is `init` it is first on the
   finish list and the cleaner is runnable.
   */
  lemma ExitEffect(s: State)
    requires Inv(s) && Enabled(s, Exit)
    ensures var c, r := s.current, Apply(s, Exit);
      && r.tasks.Keys == s.tasks.Keys && r.current != c && !IsQueued(r, c) && r.tasks[c].life == ZOMBIE
      && r.finished == (if c == INIT then s.finished else [c] + s.finished)
      && (c != INIT ==> r.tasks[CLEANER].life == RUNNING && Ready(r, CLEANER))
      && (forall t :: t in s.tasks && t != c && (t != CLEANER || c == INIT) ==> r.tasks[t].life == s.tasks[t].life)
  {
    hide Base, Schedule;
    var p := PreSchedule(s, Exit);
    ExitPreBase(s);
    OutgoingTask(p);
    ScheduleLists(p);
    ExitStep(s);
    if s.current != INIT { RunnableIsReady(Apply(s, Exit), CLEANER); }
  }

  /** `kernel_fork`: the new task is runnable, has a full slice and the priority of its parent, and is queued last. */
  lemma CreateEffect(s: State, t: Task)
    requires Inv(s) && Enabled(s, Create(t))
    ensures var p, r := s.tasks[s.current].prio, Apply(s, Create(t));
      && r.tasks == s.tasks[t := Tcb(RUNNING, p, 100)] && r == s.(tasks := r.tasks, queue := r.queue)
      && r.queue[p] == s.queue[p] + [t] && (forall i :: 0 <= i < 4 && i != p ==> r.queue[i] == s.queue[i])
      && t in Tops(r.queue, 0)
  {
    CreateKeeps(s, t);
    RunnableIsQueued(Apply(s, Create(t)), t);
    hide Inv;
  }

  /** The cleaner removes exactly the zombies, all but an exited `init`. */
  lemma ReapEffect(s: State)
    requires Inv(s) && Enabled(s, Reap)
    ensures var r := Apply(s, Reap);
      && (forall t :: t in r.tasks <==> t in s.tasks && (s.tasks[t].life == ZOMBIE ==> t == INIT))
      && (forall t :: t in r.tasks ==> r.tasks[t] == s.tasks[t])
      && r == s.(tasks := r.tasks, finished := [])
  {
    forall t | t in s.tasks && t != IDLE ensures t in s.finished <==> s.tasks[t].life == ZOMBIE && t != INIT {
      FinishedMeans(s, t);
    }
    assert IDLE !in s.finished;
  }

  lemma FinishedMeans(s: State, t: Task)
    requires Inv(s) && t in s.tasks && t != IDLE
    ensures t in s.finished <==> s.tasks[t].life == ZOMBIE && t != INIT
  {
    OnePlaceOf(s, t);
    assert t in s.finished ==> Memberships(s)[t] >= 1;
  }

  // ------------------------------------------------------------------ the tick

  /**
   A clock tick makes every thread of a due timer runnable, so that each has the CPU or is queued, and
   changes no other life; the block lists lose exactly the woken tasks.
   */
  lemma TickEffect(s: State, ts: seq<Task>)
    requires Inv(s) && Enabled(s, Tick(ts))
    ensures var r := Apply(s, Tick(ts));
      && r.time == s.time + 10 && r.finished == s.finished && r.tasks.Keys == s.tasks.Keys
      && (forall t :: t in s.tasks ==> r.tasks[t].life == if t in ts then RUNNING else s.tasks[t].life)
      && (forall t :: t in ts && t != IDLE ==> Ready(r, t))
      && (forall t :: t in r.blocked <==> t in s.blocked && t !in ts)
  {
    hide Base, Ready, Schedule;
    var r := Apply(s, Tick(ts));
    TickLives(s, ts);
    TickKeeps(s, ts);
    forall t | t in ts && t != IDLE ensures Ready(r, t) { RunnableIsReady(r, t); }
    forall t ensures t in r.blocked <==> t in s.blocked && t !in ts {
      BlockedMeans(s, t);
      BlockedMeans(r, t);
    }
  }

  lemma BlockedMeans(s: State, t: Task)
    requires Inv(s)
    ensures t in s.blocked <==> t in s.tasks && s.tasks[t].life == SLEEPING
  {
    if t in s.tasks && s.tasks[t].life == SLEEPING { SleeperIsBlocked(s, t); }
  }

  lemma TickLives(s: State, ts: seq<Task>)
    requires Inv(s) && Enabled(s, Tick(ts))
    ensures var r := Apply(s, Tick(ts));
      && r.time == s.time + 10 && r.finished == s.finished && r.tasks.Keys == s.tasks.Keys
      && (forall t :: t in s.tasks ==> r.tasks[t].life == if t in ts then RUNNING else s.tasks[t].life)
  {
    hide Schedule, Base, WakeAll;
    var s1 := s.(time := s.time + 10);
    WakeAllAwake(s1, ts);
    var w := WakeAll(s1, ts);
    ScheduleLists(w);
  }

  /**
   A tick that finds slice left takes 10 from it; the current task goes on, every other task keeps its
   priority and slice, and queued tasks keep their order.
   */
  lemma TickWithinSlice(s: State, ts: seq<Task>)
    requires Inv(s) && Enabled(s, Tick(ts)) && s.tasks[s.current].slice > 0
    ensures var c, r := s.current, Apply(s, Tick(ts));
      && r.current == c && r.tasks.Keys == s.tasks.Keys && r.boostAt == s.boostAt
      && r.tasks[c].slice == s.tasks[c].slice - 10 && r.tasks[c].prio == s.tasks[c].prio
      && (forall t :: t in s.tasks && t != c ==>
            r.tasks[t].prio == s.tasks[t].prio && r.tasks[t].slice == s.tasks[t].slice)
      && (forall i :: 0 <= i < 4 ==> s.queue[i] <= r.queue[i])
  {
    hide OnePlace, RightPlace, Schedule, Minus10, WakeAll;
    WakeAllAwake(s.(time := s.time + 10), ts);
    TickExact(s);
  }
}
