/**
 The reader/writer spinlock (kernel/include/lib/rwlock.h) as an interleaving protocol: any
 number of threads, each at a program point of `rlock_lock`, `rlock_unlock`, `wlock_lock` or
 `wlock_unlock`, and one atomic access to the lock words per step.
 */
module RwLock {

  type Tid = nat

  const U16: nat := 0x1_0000

  datatype Pc =
    | Idle
    | RLock        // spinning on `lock` in rlock_lock
    | RCount       // holds `lock`, about to increment `readers`
    | RTest        // about to compare `readers` with 1
    | RWrite       // spinning on `writelock`, still holding `lock`
    | RDone        // about to release `lock`
    | Reading
    | ULock        // spinning on `lock` in rlock_unlock
    | UCount       // holds `lock`, about to decrement `readers`
    | UTest        // about to compare `readers` with 0
    | UWrite       // about to release `writelock`
    | UDone        // about to release `lock`
    | WLock        // spinning on `writelock` in wlock_lock
    | Writing

  /** The three words of `rwlock_t`. */
  datatype Words = Words(lock: bool, writelock: bool, readers: nat)

  datatype State = State(w: Words, pc: map<Tid, Pc>)

  /** What an idle thread does next; other threads have no choice. */
  datatype Choice = StartRead | StartWrite

  /** One step of a thread at `p`; `test_and_set` on a taken flag leaves everything as it is. */
  function Local(w: Words, p: Pc, c: Choice): (Words, Pc) {
    match p
    case Idle => (w, if c == StartRead then RLock else WLock)
    case RLock => if w.lock then (w, p) else (w.(lock := true), RCount)
    case RCount => (w.(readers := (w.readers + 1) % U16), RTest)
    case RTest => (w, if w.readers == 1 then RWrite else RDone)
    case RWrite => if w.writelock then (w, p) else (w.(writelock := true), RDone)
    case RDone => (w.(lock := false), Reading)
    case Reading => (w, ULock)
    case ULock => if w.lock then (w, p) else (w.(lock := true), UCount)
    case UCount => (w.(readers := (w.readers + U16 - 1) % U16), UTest)
    case UTest => (w, if w.readers == 0 then UWrite else UDone)
    case UWrite => (w.(writelock := false), UDone)
    case UDone => (w.(lock := false), Idle)
    case WLock => if w.writelock then (w, p) else (w.(writelock := true), Writing)
    case Writing => (w.(writelock := false), Idle)
  }

  function Step(s: State, t: Tid, c: Choice): State
    requires t in s.pc
  {
    var (w, p) := Local(s.w, s.pc[t], c);
    State(w, s.pc[t := p])
  }

  predicate HoldsLock(p: Pc) {
    p == RCount || p == RTest || p == RWrite || p == RDone || p == UCount || p == UTest || p == UWrite || p == UDone
  }

  /** Between its increment and its decrement of `readers`. */
  predicate Counted(p: Pc) {
    p == RTest || p == RWrite || p == RDone || p == Reading || p == ULock || p == UCount
  }

  ghost function CountedSet(s: State): set<Tid> { set t | t in s.pc && Counted(s.pc[t]) }

  /** The first reader of a group still has to take `writelock`. */
  ghost predicate Entering(s: State) {
    exists t :: t in s.pc && (s.pc[t] == RWrite || (s.pc[t] == RTest && s.w.readers == 1))
  }

  /** The last reader of a group may still have to release `writelock`. */
  ghost predicate Leaving(s: State) {
    exists t :: t in s.pc && (s.pc[t] == UTest || s.pc[t] == UWrite)
  }

  /** The admitted readers own `writelock`. */
  ghost predicate GroupOwns(s: State) { (s.w.readers > 0 && !Entering(s)) || Leaving(s) }

  ghost predicate WriterIn(s: State) { exists t :: t in s.pc && s.pc[t] == Writing }

  /** `lock` is a mutual exclusion lock. */
  ghost predicate LockInv(s: State) {
    && (s.w.lock <==> exists t :: t in s.pc && HoldsLock(s.pc[t]))
    && (forall t, u :: t in s.pc && u in s.pc && HoldsLock(s.pc[t]) && HoldsLock(s.pc[u]) ==> t == u)
  }

  /** `readers` counts the threads past their increment. */
  ghost predicate CountInv(s: State) {
    && |s.pc| < U16 && s.w.readers == |CountedSet(s)|
    && (forall t :: t in s.pc && s.pc[t] == RWrite ==> s.w.readers == 1)
    && (forall t :: t in s.pc && s.pc[t] == UWrite ==> s.w.readers == 0)
  }

  /** `writelock` is held by one writer or by the readers as a group. */
  ghost predicate WriteInv(s: State) {
    && (forall t, u :: t in s.pc && u in s.pc && s.pc[t] == Writing && s.pc[u] == Writing ==> t == u)
    && (s.w.writelock <==> WriterIn(s) || GroupOwns(s))
    && !(WriterIn(s) && GroupOwns(s))
  }

  ghost predicate Inv(s: State) { LockInv(s) && CountInv(s) && WriteInv(s) }

  // ------------------------------------------------------ facts about one thread

  lemma LocalLock(w: Words, p: Pc, c: Choice)
    ensures var (w', p') := Local(w, p, c);
      && (HoldsLock(p) == HoldsLock(p') ==> w'.lock == w.lock)
      && (!HoldsLock(p) && HoldsLock(p') ==> !w.lock && w'.lock)
      && (HoldsLock(p) && !HoldsLock(p') ==> !w'.lock)
  {
  }

  lemma LocalCount(w: Words, p: Pc, c: Choice)
    ensures var (w', p') := Local(w, p, c);
      && (Counted(p) == Counted(p') ==> w'.readers == w.readers)
      && (!Counted(p) && Counted(p') ==> w'.readers == (w.readers + 1) % U16 && HoldsLock(p) && p' == RTest)
      && (Counted(p) && !Counted(p') ==> w'.readers == (w.readers + U16 - 1) % U16 && HoldsLock(p) && p' == UTest)
      && (p' == RWrite ==> w'.readers == w.readers && (p == RWrite || w.readers == 1))
      && (p' == UWrite ==> w'.readers == w.readers && w.readers == 0)
  {
  }

  lemma StepLock(s: State, t: Tid, c: Choice)
    requires LockInv(s) && t in s.pc
    ensures LockInv(Step(s, t, c))
  {
    hide Local, HoldsLock;
    LocalLock(s.w, s.pc[t], c);
    var r := Step(s, t, c);
    assert forall u :: u in s.pc && u != t ==> r.pc[u] == s.pc[u];
    if HoldsLock(r.pc[t]) {
      assert r.w.lock;
    } else if r.w.lock {
      var u :| u in s.pc && HoldsLock(s.pc[u]);
      assert HoldsLock(r.pc[u]);
    }
  }

  lemma CountedMove(s: State, t: Tid, c: Choice)
    requires t in s.pc
    ensures var r := Step(s, t, c);
      && (Counted(r.pc[t]) && !Counted(s.pc[t]) ==> |CountedSet(r)| == |CountedSet(s)| + 1)
      && (!Counted(r.pc[t]) && Counted(s.pc[t]) ==> |CountedSet(r)| == |CountedSet(s)| - 1)
      && (Counted(r.pc[t]) == Counted(s.pc[t]) ==> |CountedSet(r)| == |CountedSet(s)|)
  {
    hide Local, Counted;
    var r := Step(s, t, c);
    if Counted(r.pc[t]) && !Counted(s.pc[t]) {
      assert CountedSet(r) == CountedSet(s) + {t};
    } else if !Counted(r.pc[t]) && Counted(s.pc[t]) {
      assert CountedSet(r) == CountedSet(s) - {t};
    } else {
      assert CountedSet(r) == CountedSet(s);
    }
  }

  lemma CountBound(s: State)
    ensures |CountedSet(s)| <= |s.pc|
  {
    SubsetSize(CountedSet(s), s.pc.Keys);
  }

  lemma {:induction false} SubsetSize(a: set<Tid>, b: set<Tid>)
    requires a <= b
    ensures |a| <= |b|
    decreases |a|
  {
    if x :| x in a { SubsetSize(a - {x}, b - {x}); }
  }

  lemma StepCount(s: State, t: Tid, c: Choice)
    requires LockInv(s) && CountInv(s) && t in s.pc
    ensures CountInv(Step(s, t, c))
    ensures var r := Step(s, t, c);
      r.w.readers - s.w.readers == (if Counted(r.pc[t]) then 1 else 0) - (if Counted(s.pc[t]) then 1 else 0)
  {
    hide Local, Counted, CountedSet, LockInv;
    var r := Step(s, t, c);
    LocalCount(s.w, s.pc[t], c);
    CountedMove(s, t, c);
    CountBound(r);
    CountBound(s);
    assert r.pc.Keys == s.pc.Keys && |r.pc| == |s.pc|;
    if Counted(s.pc[t]) { CountedNonempty(s, t); }
    forall u | u in r.pc && u != t && (r.pc[u] == RWrite || r.pc[u] == UWrite) ensures r.w.readers == s.w.readers {
      OneHolder(s, u, t);
    }
  }

  lemma CountedNonempty(s: State, t: Tid)
    requires t in s.pc && Counted(s.pc[t])
    ensures |CountedSet(s)| > 0
  {
    assert t in CountedSet(s);
  }

  lemma OneHolder(s: State, u: Tid, t: Tid)
    requires LockInv(s) && u in s.pc && t in s.pc && u != t && HoldsLock(s.pc[u])
    ensures !HoldsLock(s.pc[t])
  {
  }

  // ------------------------------------------------------------- writelock

  /** How one step changes what a thread contributes to the ownership of `writelock`. */
  lemma LocalWrite(w: Words, p: Pc, c: Choice)
    ensures var (w', p') := Local(w, p, c);
      && (p' == Writing && p != Writing ==> p == WLock && !w.writelock && w'.writelock && w'.readers == w.readers)
      && (p == Writing ==> p' == Idle && !w'.writelock && w'.readers == w.readers)
      && (p == RWrite && p' != RWrite ==> p' == RDone && !w.writelock && w'.writelock && w'.readers == w.readers)
      && (p == UWrite ==> p' == UDone && !w'.writelock && w'.readers == w.readers)
      && (w'.writelock != w.writelock ==>
          p == Writing || p == UWrite || (p == WLock && p' == Writing) || (p == RWrite && p' == RDone))
  {
  }

  /** Group ownership as seen by the thread that holds `lock`. */
  predicate OwnsAt(p: Pc, n: nat) {
    (n > 0 && p != RWrite && !(p == RTest && n == 1)) || p == UTest || p == UWrite
  }

  lemma HolderDecides(s: State, t: Tid)
    requires LockInv(s) && t in s.pc && HoldsLock(s.pc[t])
    ensures GroupOwns(s) <==> OwnsAt(s.pc[t], s.w.readers)
  {
    assert forall u :: u in s.pc && u != t ==> !HoldsLock(s.pc[u]);
  }

  lemma FreeDecides(s: State)
    requires LockInv(s) && !s.w.lock
    ensures GroupOwns(s) <==> s.w.readers > 0
  {
    assert forall u :: u in s.pc ==> !HoldsLock(s.pc[u]);
  }

  /** One step of the holder of `lock` changes group ownership only where it takes or releases `writelock`. */
  lemma LocalOwns(w: Words, p: Pc, c: Choice)
    requires HoldsLock(p) && (Counted(p) ==> w.readers >= 1) && w.readers < U16 && (!Counted(p) ==> w.readers < U16 - 1)
    requires (p == RWrite ==> w.readers == 1) && (p == UWrite ==> w.readers == 0)
    ensures var (w', p') := Local(w, p, c);
      if p == RWrite && p' != RWrite then !OwnsAt(p, w.readers) && OwnsAt(p', w'.readers) && HoldsLock(p')
      else if p == UWrite then OwnsAt(p, w.readers) && !OwnsAt(p', w'.readers) && HoldsLock(p')
      else if HoldsLock(p') then OwnsAt(p', w'.readers) == OwnsAt(p, w.readers)
      else (w'.readers > 0) == OwnsAt(p, w.readers)
  {
  }

  lemma StepGroup(s: State, t: Tid, c: Choice)
    requires LockInv(s) && CountInv(s) && t in s.pc
    ensures var r := Step(s, t, c);
      if s.pc[t] == RWrite && r.pc[t] != RWrite then !GroupOwns(s) && GroupOwns(r)
      else if s.pc[t] == UWrite then GroupOwns(s) && !GroupOwns(r)
      else GroupOwns(r) == GroupOwns(s)
  {
    hide Local, GroupOwns, Counted, OwnsAt;
    var r := Step(s, t, c);
    StepLock(s, t, c);
    LocalLock(s.w, s.pc[t], c);
    LocalCount(s.w, s.pc[t], c);
    if HoldsLock(s.pc[t]) {
      HolderDecides(s, t);
      HolderCount(s, t);
      LocalOwns(s.w, s.pc[t], c);
      if HoldsLock(r.pc[t]) { HolderDecides(r, t); } else { FreeDecides(r); }
    } else {
      BystanderGroup(s, t, c);
    }
  }

  lemma HolderCount(s: State, t: Tid)
    requires CountInv(s) && t in s.pc && HoldsLock(s.pc[t])
    ensures (Counted(s.pc[t]) ==> s.w.readers >= 1) && (s.w.readers < U16 - 1 || Counted(s.pc[t]))
    ensures s.w.readers < U16
  {
    if Counted(s.pc[t]) { assert t in CountedSet(s); }
    CountBound(s);
    if !Counted(s.pc[t]) { SubsetSize(CountedSet(s), s.pc.Keys - {t}); }
  }

  lemma LocalBystander(w: Words, p: Pc, c: Choice)
    requires !HoldsLock(p)
    ensures var (w', p') := Local(w, p, c);
      w'.readers == w.readers && p' != RTest && p' != RWrite && p' != UTest && p' != UWrite
  {
  }

  lemma BystanderGroup(s: State, t: Tid, c: Choice)
    requires t in s.pc && !HoldsLock(s.pc[t])
    ensures GroupOwns(Step(s, t, c)) == GroupOwns(s)
  {
    hide Local;
    LocalBystander(s.w, s.pc[t], c);
    var r := Step(s, t, c);
    assert forall u :: u in s.pc && u != t ==> r.pc[u] == s.pc[u];
    if Entering(s) {
      var u :| u in s.pc && (s.pc[u] == RWrite || (s.pc[u] == RTest && s.w.readers == 1));
      assert r.pc[u] == s.pc[u];
    }
    if Leaving(s) {
      var u :| u in s.pc && (s.pc[u] == UTest || s.pc[u] == UWrite);
      assert r.pc[u] == s.pc[u];
    }
  }

  lemma StepWriter(s: State, t: Tid, c: Choice)
    requires WriteInv(s) && t in s.pc
    ensures var r := Step(s, t, c);
      && (r.pc[t] == Writing ==> WriterIn(r))
      && (s.pc[t] == Writing ==> !WriterIn(r))
      && (s.pc[t] != Writing && r.pc[t] != Writing ==> WriterIn(r) == WriterIn(s))
      && (forall x, y :: x in r.pc && y in r.pc && r.pc[x] == Writing && r.pc[y] == Writing ==> x == y)
  {
    hide Local, GroupOwns;
    LocalWrite(s.w, s.pc[t], c);
    var r := Step(s, t, c);
    assert forall u :: u in s.pc && u != t ==> r.pc[u] == s.pc[u];
    if WriterIn(s) {
      var u :| u in s.pc && s.pc[u] == Writing;
      assert u != t ==> r.pc[u] == Writing;
    }
  }

  lemma StepWrite(s: State, t: Tid, c: Choice)
    requires LockInv(s) && CountInv(s) && WriteInv(s) && t in s.pc
    ensures WriteInv(Step(s, t, c))
  {
    hide Local, LockInv, CountInv, GroupOwns;
    LocalWrite(s.w, s.pc[t], c);
    StepGroup(s, t, c);
    StepWriter(s, t, c);
    assert s.pc[t] == Writing ==> WriterIn(s);
    hide WriterIn;
  }

  /** Every step of every thread keeps the invariant. */
  lemma StepKeeps(s: State, t: Tid, c: Choice)
    requires Inv(s) && t in s.pc
    ensures Inv(Step(s, t, c))
  {
    StepLock(s, t, c);
    StepCount(s, t, c);
    StepWrite(s, t, c);
  }

  // --------------------------------------------------------------- all schedules

  datatype Move = Move(t: Tid, c: Choice)

  ghost function Run(s: State, moves: seq<Move>): State
    requires forall m :: m in moves ==> m.t in s.pc
    decreases |moves|
  {
    if moves == [] then s else Run(Step(s, moves[0].t, moves[0].c), moves[1..])
  }

  lemma {:induction false} RunKeeps(s: State, moves: seq<Move>)
    requires Inv(s) && forall m :: m in moves ==> m.t in s.pc
    ensures Inv(Run(s, moves)) && Run(s, moves).pc.Keys == s.pc.Keys
    decreases |moves|
  {
    if moves != [] {
      hide Inv, Local;
      StepKeeps(s, moves[0].t, moves[0].c);
      RunKeeps(Step(s, moves[0].t, moves[0].c), moves[1..]);
    }
  }

  /** `rwlock_init`, with any number of threads below 65536, none of them inside. */
  ghost predicate Initial(s: State) {
    && s.w == Words(false, false, 0) && |s.pc| < U16 && forall t :: t in s.pc ==> s.pc[t] == Idle
  }

  lemma InitialInv(s: State)
    requires Initial(s)
    ensures Inv(s)
  {
    assert CountedSet(s) == {};
  }

  /** Mutual exclusion along every interleaving: one writer and no reader, or no writer. */
  lemma Exclusion(s: State, moves: seq<Move>, t: Tid, u: Tid)
    requires Initial(s) && forall m :: m in moves ==> m.t in s.pc
    requires var r := Run(s, moves); t in r.pc && u in r.pc && t != u && r.pc[t] == Writing
    ensures Run(s, moves).pc[u] != Writing && Run(s, moves).pc[u] != Reading
  {
    InitialInv(s);
    RunKeeps(s, moves);
    WriterAlone(Run(s, moves), t, u);
  }

  lemma WriterAlone(s: State, t: Tid, u: Tid)
    requires Inv(s) && t in s.pc && u in s.pc && t != u && s.pc[t] == Writing
    ensures s.pc[u] != Writing && s.pc[u] != Reading
  {
    assert WriterIn(s) && !GroupOwns(s);
    if s.pc[u] == Reading {
      assert u in CountedSet(s);
      FirstIsAlone(s, u);
    }
  }

  /** While a reader is inside, the next one does not have to take `writelock`. */
  lemma FirstIsAlone(s: State, u: Tid)
    requires CountInv(s) && u in s.pc && s.pc[u] == Reading
    ensures GroupOwns(s)
  {
    forall t | t in s.pc && (s.pc[t] == RTest || s.pc[t] == RWrite) ensures s.w.readers > 1 {
      assert {t, u} <= CountedSet(s);
      SubsetSize({t, u}, CountedSet(s));
    }
    assert u in CountedSet(s);
  }

  // ------------------------------------------------------------------ progress

  /** A step of `t`, which is inside one of the four operations, changes the state: it does not spin in vain. */
  predicate CanMove(s: State, t: Tid)
    requires t in s.pc
  {
    s.pc[t] != Idle && Step(s, t, StartRead) != s
  }

  /** Only a taken flag can hold a thread up. */
  lemma SpinsOnly(s: State, t: Tid)
    requires t in s.pc && s.pc[t] != Idle
    ensures CanMove(s, t) <==>
      && ((s.pc[t] == RLock || s.pc[t] == ULock) ==> !s.w.lock)
      && ((s.pc[t] == RWrite || s.pc[t] == WLock) ==> !s.w.writelock)
  {
    var r := Step(s, t, StartRead);
    assert r.pc[t] == s.pc[t] ==> r.pc == s.pc;
  }

  /** There is no deadlock: if some thread is not idle, a step of some thread changes the state. */
  lemma Progress(s: State, t: Tid)
    requires Inv(s) && t in s.pc && s.pc[t] != Idle
    ensures exists u, c :: u in s.pc && s.pc[u] != Idle && Step(s, u, c) != s
  {
    var u := Mover(s, t);
    assert Step(s, u, StartRead) != s;
  }

  lemma Mover(s: State, t: Tid) returns (u: Tid)
    requires Inv(s) && t in s.pc && s.pc[t] != Idle
    ensures u in s.pc && CanMove(s, u)
  {
    hide Step, CanMove;
    if s.w.lock {
      u :| u in s.pc && HoldsLock(s.pc[u]);
      if s.pc[u] == RWrite && s.w.writelock {
        HolderDecides(s, u);
        u :| u in s.pc && s.pc[u] == Writing;
      }
    } else if s.pc[t] == WLock && s.w.writelock {
      u := WriterWaits(s);
    } else {
      u := t;
    }
    SpinsOnly(s, u);
  }

  lemma WriterWaits(s: State) returns (u: Tid)
    requires Inv(s) && !s.w.lock && s.w.writelock
    ensures u in s.pc && (s.pc[u] == Writing || s.pc[u] == Reading || s.pc[u] == ULock)
  {
    if WriterIn(s) {
      u :| u in s.pc && s.pc[u] == Writing;
    } else {
      FreeDecides(s);
      assert CountedSet(s) != {};
      u :| u in CountedSet(s);
      assert !HoldsLock(s.pc[u]);
    }
  }

  // ------------------------------------------------- everybody can finish

  /** The steps that a thread at `p` still has before it at most. */
  function Rank(p: Pc): nat {
    match p
    case Idle => 0
    case RLock => 11
    case RCount => 10
    case RTest => 9
    case RWrite => 8
    case RDone => 7
    case Reading => 6
    case ULock => 5
    case UCount => 4
    case UTest => 3
    case UWrite => 2
    case UDone => 1
    case WLock => 2
    case Writing => 1
  }

  ghost function Work(pc: map<Tid, Pc>, ts: set<Tid>): nat
    requires ts <= pc.Keys
  {
    if ts == {} then 0 else var t :| t in ts; Rank(pc[t]) + Work(pc, ts - {t})
  }

  lemma {:induction false} WorkPick(pc: map<Tid, Pc>, ts: set<Tid>, x: Tid)
    requires ts <= pc.Keys && x in ts
    ensures Work(pc, ts) == Rank(pc[x]) + Work(pc, ts - {x})
    decreases ts
  {
    var t :| t in ts && Work(pc, ts) == Rank(pc[t]) + Work(pc, ts - {t});
    if t != x {
      WorkPick(pc, ts - {t}, x);
      WorkPick(pc, ts - {x}, t);
      assert ts - {t} - {x} == ts - {x} - {t};
    }
  }

  lemma {:induction false} WorkFrame(pc: map<Tid, Pc>, pc': map<Tid, Pc>, ts: set<Tid>)
    requires ts <= pc.Keys && ts <= pc'.Keys && forall t :: t in ts ==> pc'[t] == pc[t]
    ensures Work(pc', ts) == Work(pc, ts)
    decreases ts
  {
    if ts != {} {
      var t :| t in ts;
      WorkPick(pc, ts, t);
      WorkPick(pc', ts, t);
      WorkFrame(pc, pc', ts - {t});
    }
  }

  lemma {:induction false} WorkBound(pc: map<Tid, Pc>, ts: set<Tid>)
    requires ts <= pc.Keys
    ensures Work(pc, ts) <= 11 * |ts|
    decreases ts
  {
    if ts != {} {
      var t :| t in ts;
      WorkPick(pc, ts, t);
      WorkBound(pc, ts - {t});
    }
  }

  /** A step that changes the state, of a thread that is not idle, leaves less work. */
  lemma MoveWorks(s: State, t: Tid, c: Choice)
    requires t in s.pc && s.pc[t] != Idle && Step(s, t, c) != s
    ensures Work(Step(s, t, c).pc, s.pc.Keys) < Work(s.pc, s.pc.Keys)
  {
    var r := Step(s, t, c);
    assert r.pc.Keys == s.pc.Keys;
    assert Rank(r.pc[t]) < Rank(s.pc[t]) by { assert r.pc[t] == s.pc[t] ==> r.pc == s.pc; }
    WorkPick(s.pc, s.pc.Keys, t);
    WorkPick(r.pc, s.pc.Keys, t);
    WorkFrame(s.pc, r.pc, s.pc.Keys - {t});
  }

  /** Every move changes the state, and none starts a new operation. */
  ghost predicate Finishing(s: State, moves: seq<Move>)
    decreases |moves|
  {
    moves == [] ||
    (var m := moves[0];
     m.t in s.pc && s.pc[m.t] != Idle && Step(s, m.t, m.c) != s && Finishing(Step(s, m.t, m.c), moves[1..]))
  }

  /** However the threads take turns, after 11 moves for each of them nothing is left to do. */
  lemma {:induction false} FinishingEnds(s: State, moves: seq<Move>)
    requires Finishing(s, moves)
    ensures |moves| <= 11 * |s.pc|
  {
    FinishingWork(s, moves);
    WorkBound(s.pc, s.pc.Keys);
    assert |s.pc.Keys| == |s.pc|;
  }

  lemma {:induction false} FinishingWork(s: State, moves: seq<Move>)
    requires Finishing(s, moves)
    ensures |moves| <= Work(s.pc, s.pc.Keys)
    decreases |moves|
  {
    if moves != [] {
      hide Step;
      MoveWorks(s, moves[0].t, moves[0].c);
      FinishingWork(Step(s, moves[0].t, moves[0].c), moves[1..]);
      StepKeys(s, moves[0].t, moves[0].c);
    }
  }

  lemma StepKeys(s: State, t: Tid, c: Choice)
    requires t in s.pc
    ensures Step(s, t, c).pc.Keys == s.pc.Keys
  {
  }

  /**
   From every state that can be reached, some moves of the threads that are inside bring all of them
   out again and leave the lock as it was made.
   */
  lemma {:induction false} AllFinish(s: State) returns (moves: seq<Move>)
    requires Inv(s)
    ensures (forall m :: m in moves ==> m.t in s.pc) && Finishing(s, moves)
    ensures Initial(Run(s, moves)) && Run(s, moves).pc.Keys == s.pc.Keys
    decreases Work(s.pc, s.pc.Keys)
  {
    if t :| t in s.pc && s.pc[t] != Idle {
      var u := Mover(s, t);
      var r := Step(s, u, StartRead);
      StepKeys(s, u, StartRead);
      StepKeeps(s, u, StartRead);
      MoveWorks(s, u, StartRead);
      hide Inv, Step, Initial;
      var rest := AllFinish(r);
      moves := [Move(u, StartRead)] + rest;
      assert moves[1..] == rest;
    } else {
      moves := [];
      IdleIsInitial(s);
    }
  }

  lemma IdleIsInitial(s: State)
    requires Inv(s) && forall t :: t in s.pc ==> s.pc[t] == Idle
    ensures Initial(s)
  {
    assert CountedSet(s) == {};
  }

  // ------------------------------------------------------- everybody can enter

  lemma RunCons(s: State, m: Move, rest: seq<Move>)
    requires m.t in s.pc && forall x :: x in rest ==> x.t in s.pc
    ensures Step(s, m.t, m.c).pc.Keys == s.pc.Keys
    ensures (forall x :: x in [m] + rest ==> x.t in s.pc) && Run(s, [m] + rest) == Run(Step(s, m.t, m.c), rest)
  {
    hide Local;
    assert ([m] + rest)[1..] == rest;
  }

  lemma {:induction false} RunJoin(s: State, a: seq<Move>, b: seq<Move>)
    requires (forall m :: m in a ==> m.t in s.pc) && (forall m :: m in b ==> m.t in s.pc)
    ensures Run(s, a).pc.Keys == s.pc.Keys && Run(s, a + b) == Run(Run(s, a), b)
    decreases |a|
  {
    hide Step;
    if a == [] {
      assert a + b == b;
    } else {
      hide Run;
      var r := Step(s, a[0].t, a[0].c);
      StepKeys(s, a[0].t, a[0].c);
      RunJoin(r, a[1..], b);
      RunCons(s, a[0], a[1..]);
      RunCons(s, a[0], a[1..] + b);
      assert [a[0]] + a[1..] == a && [a[0]] + (a[1..] + b) == a + b;
    }
  }

  /** The readers in `rs` are inside, nobody else is in any operation. */
  ghost predicate JustReaders(s: State, rs: set<Tid>) {
    && s.w == Words(false, rs != {}, |rs|) && rs <= s.pc.Keys
    && forall t :: t in s.pc ==> s.pc[t] == if t in rs then Reading else Idle
  }

  /** `k` steps of `t` with no other thread in between. */
  ghost function Solo(s: State, t: Tid, c: Choice, k: nat): State
    requires t in s.pc
    decreases k
  {
    if k == 0 then s else Solo(Step(s, t, c), t, c, k - 1)
  }

  lemma {:induction false} SoloRun(s: State, t: Tid, c: Choice, k: nat) returns (moves: seq<Move>)
    requires t in s.pc
    ensures (forall m :: m in moves ==> m.t in s.pc) && Run(s, moves) == Solo(s, t, c, k)
    decreases k
  {
    hide Step;
    if k == 0 {
      moves := [];
    } else {
      StepKeys(s, t, c);
      var rest := SoloRun(Step(s, t, c), t, c, k - 1);
      moves := [Move(t, c)] + rest;
      assert moves[1..] == rest;
    }
  }

  /** The seven points of `rlock_lock` for the `n`-th reader, when nobody interferes. */
  lemma ReaderPath(n: nat)
    requires 1 <= n < U16
    ensures var free, held, counted := Words(false, n > 1, n - 1), Words(true, n > 1, n - 1), Words(true, n > 1, n);
      && Local(free, Idle, StartRead) == (free, RLock) && Local(free, RLock, StartRead) == (held, RCount)
      && Local(held, RCount, StartRead) == (counted, RTest)
      && Local(counted, RTest, StartRead) == (counted, if n == 1 then RWrite else RDone)
      && (n == 1 ==> Local(counted, RWrite, StartRead) == (Words(true, true, n), RDone))
      && Local(Words(true, true, n), RDone, StartRead) == (Words(false, true, n), Reading)
  {
  }

  /** `rlock_lock` without interruption: the first reader takes `writelock`, the others do not. */
  lemma SoloReader(pc: map<Tid, Pc>, t: Tid, n: nat)
    requires t in pc && 1 <= n < U16
    ensures Solo(State(Words(false, n > 1, n - 1), pc[t := Idle]), t, StartRead, if n == 1 then 6 else 5)
         == State(Words(false, true, n), pc[t := Reading])
  {
    hide Step, Solo, Local;
    var free, held, counted := Words(false, n > 1, n - 1), Words(true, n > 1, n - 1), Words(true, n > 1, n);
    var done, k := State(Words(false, true, n), pc[t := Reading]), if n == 1 then 3 else 2;
    ReaderPath(n);
    SoloNone(done, t);
    SoloSteps(Words(true, true, n), pc, t, RDone, Words(false, true, n), Reading, done, 0);
    if n == 1 {
      SoloSteps(counted, pc, t, RWrite, Words(true, true, n), RDone, done, 1);
      SoloSteps(counted, pc, t, RTest, counted, RWrite, done, 2);
    } else {
      SoloSteps(counted, pc, t, RTest, counted, RDone, done, 1);
    }
    SoloSteps(held, pc, t, RCount, counted, RTest, done, k);
    SoloSteps(free, pc, t, RLock, held, RCount, done, k + 1);
    SoloSteps(free, pc, t, Idle, free, RLock, done, k + 2);
  }

  lemma SoloNone(s: State, t: Tid)
    requires t in s.pc
    ensures Solo(s, t, StartRead, 0) == s
  {
  }

  /** One step of `t` before `k` steps that end in `done`. */
  lemma SoloSteps(w: Words, pc: map<Tid, Pc>, t: Tid, p: Pc, w': Words, p': Pc, done: State, k: nat)
    requires t in pc && Local(w, p, StartRead) == (w', p')
    requires Solo(State(w', pc[t := p']), t, StartRead, k) == done
    ensures Solo(State(w, pc[t := p]), t, StartRead, k + 1) == done
  {
    hide Local;
    assert pc[t := p][t := p'] == pc[t := p'];
  }

  lemma ReaderEnters(s: State, rs: set<Tid>, t: Tid) returns (moves: seq<Move>)
    requires JustReaders(s, rs) && t in s.pc && t !in rs && |s.pc| < U16
    ensures (forall m :: m in moves ==> m.t in s.pc) && Run(s, moves).pc.Keys == s.pc.Keys
    ensures JustReaders(Run(s, moves), rs + {t})
  {
    hide Run, Solo;
    SubsetSize(rs + {t}, s.pc.Keys);
    assert |s.pc.Keys| == |s.pc| && |rs + {t}| == |rs| + 1;
    assert s.pc[t := Idle] == s.pc;
    SoloReader(s.pc, t, |rs| + 1);
    moves := SoloRun(s, t, StartRead, if rs == {} then 6 else 5);
  }

  /** Any set of threads can be reading at the same time. */
  lemma {:induction false} ReadersTogether(s: State, rs: set<Tid>) returns (moves: seq<Move>)
    requires Initial(s) && rs <= s.pc.Keys
    ensures (forall m :: m in moves ==> m.t in s.pc) && Run(s, moves).pc.Keys == s.pc.Keys
    ensures forall t :: t in s.pc ==> Run(s, moves).pc[t] == if t in rs then Reading else Idle
  {
    moves := ReadersIn(s, rs);
  }

  lemma {:induction false} ReadersIn(s: State, rs: set<Tid>) returns (moves: seq<Move>)
    requires Initial(s) && rs <= s.pc.Keys
    ensures (forall m :: m in moves ==> m.t in s.pc) && Run(s, moves).pc.Keys == s.pc.Keys
    ensures JustReaders(Run(s, moves), rs)
    decreases rs
  {
    if rs == {} {
      moves := [];
    } else {
      var t :| t in rs;
      hide JustReaders;
      var a := ReadersIn(s, rs - {t});
      var r := Run(s, a);
      assert |r.pc| == |r.pc.Keys| == |s.pc.Keys| == |s.pc|;
      var b := ReaderEnters(r, rs - {t}, t);
      RunJoin(s, a, b);
      moves := a + b;
      assert rs - {t} + {t} == rs;
    }
  }

  /** Any thread can come to write. */
  lemma WriterEnters(s: State, t: Tid) returns (moves: seq<Move>)
    requires Initial(s) && t in s.pc
    ensures (forall m :: m in moves ==> m.t in s.pc) && Run(s, moves).pc == s.pc[t := Writing]
  {
    var s1 := State(s.w, s.pc[t := WLock]);
    var s2 := State(Words(false, true, 0), s.pc[t := Writing]);
    assert Step(s, t, StartWrite) == s1 && Step(s1, t, StartWrite) == s2;
    hide Step;
    assert Solo(s1, t, StartWrite, 1) == s2;
    moves := SoloRun(s, t, StartWrite, 2);
  }

  /** Whatever has happened so far, every thread can still come to read and every thread to write. */
  lemma NobodyIsShutOut(s: State, past: seq<Move>, t: Tid, reading: bool) returns (moves: seq<Move>)
    requires Initial(s) && t in s.pc && forall m :: m in past ==> m.t in s.pc
    ensures (forall m :: m in past + moves ==> m.t in s.pc) && t in Run(s, past + moves).pc
    ensures Run(s, past + moves).pc[t] == if reading then Reading else Writing
  {
    hide Initial, Step, Run, Inv, Finishing;
    InitialInv(s);
    RunKeeps(s, past);
    var r := Run(s, past);
    var out := AllFinish(r);
    var back := Run(r, out);
    var go: seq<Move>;
    if reading { go := ReadersTogether(back, {t}); } else { go := WriterEnters(back, t); }
    moves := out + go;
    RunJoin(r, out, go);
    RunJoin(s, past, moves);
  }
}
