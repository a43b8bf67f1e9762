/**
 The sleep timers of kernel/task/timer.c: a fixed pool with a stack of free timers and a ring
 of active ones, which the clock interrupt walks.
 */
module Timers {
  import opened Seqs
  import opened Rings

  const TIMER_COUNT: nat := 20

  /** What a timer holds: the sleeping task and the time to wake it. */
  datatype Timer = Timer(thread: nat, time: nat)

  /** The tasks of the timers in `s` that are due at `now`, in order. */
  function Woken(s: seq<Node>, timers: map<Node, Timer>, now: nat): seq<nat>
    requires forall t :: t in s ==> t in timers
  {
    if s == [] then []
    else (if timers[s[0]].time <= now then [timers[s[0]].thread] else []) + Woken(s[1..], timers, now)
  }

  /** The timers that are not due. */
  function Pending(s: seq<Node>, timers: map<Node, Timer>, now: nat): seq<Node>
    requires forall t :: t in s ==> t in timers
  {
    if s == [] then [] else (if timers[s[0]].time <= now then [] else [s[0]]) + Pending(s[1..], timers, now)
  }

  ghost function Members(s: seq<Node>): set<Node> { set t | t in s }

  /** Every timer of the pool is either on the stack or in the ring, once. */
  ghost predicate Partition(all: set<Node>, free: seq<Node>, active: seq<Node>) {
    NoDup(free + active) && all == Members(free + active)
  }

  lemma PartitionCount(all: set<Node>, free: seq<Node>, active: seq<Node>)
    requires Partition(all, free, active)
    ensures |all| == |free| + |active|
  {
    CountDistinct(free + active);
  }

  lemma {:induction false} CountDistinct(s: seq<Node>)
    requires NoDup(s)
    ensures |Members(s)| == |s|
  {
    if s != [] {
      var rest := s[1..];
      CountDistinct(rest);
      assert s[0] !in rest;
      assert Members(s) == Members(rest) + {s[0]};
    } else {
      assert Members(s) == {};
    }
  }

  /** A timer moves from the ring to the stack. */
  lemma Move(all: set<Node>, free: seq<Node>, a: seq<Node>, t: Node, b: seq<Node>)
    requires Partition(all, free, a + [t] + b)
    ensures Partition(all, free + [t], a + b)
  {
    var s, r := free + (a + [t] + b), free + [t] + (a + b);
    var f, m := |free|, |a|;
    forall i, j | 0 <= i < j < |r| ensures r[i] != r[j] {
      var i' := if i < f then i else if i == f then f + m else if i <= f + m then i - 1 else i;
      var j' := if j < f then j else if j == f then f + m else if j <= f + m then j - 1 else j;
      assert r[i] == s[i'] && r[j] == s[j'] && i' != j';
    }
    assert forall x :: x in s <==> x in r;
  }

  class Pool {
    ghost const all: set<Node>         // _timer[0..20]
    const header: Node                 // P_HEAD
    var stack: seq<Node>               // timer_pool.timer[..top]
    var links: Links
    var timers: map<Node, Timer>
    ghost var active: seq<Node>

    ghost predicate Valid()
      reads this
    {
      && |all| == TIMER_COUNT && header !in all && Ring(links, header, active) && Partition(all, stack, active)
      && (forall t :: t in active ==> t in timers)
    }

    /** `thread_timer_init` */
    constructor (pool: seq<Node>, header: Node)
      requires |pool| == TIMER_COUNT && NoDup(pool) && header !in pool
      ensures Valid() && active == [] && all == Members(pool) && this.header == header
    {
      all := Members(pool);
      stack, this.header := pool, header;
      links, timers, active := Init(Links(map[], map[]), header), map[], [];
      new;
      InitSpec(Links(map[], map[]), header);
      assert pool + [] == pool;
      CountDistinct(pool);
    }

    /** `ms_sleep_until` up to the call of `task_sleep`: it fails exactly when all timers are active. */
    method Arm(task: nat, until: nat) returns (ok: bool)
      requires Valid()
      modifies this
      ensures Valid() && ok == (|old(active)| < TIMER_COUNT)
      ensures !ok ==> active == old(active) && timers == old(timers)
      ensures ok ==> |active| == |old(active)| + 1 && active[..|old(active)|] == old(active)
      ensures ok ==> timers == old(timers)[active[|old(active)|] := Timer(task, until)]
    {
      PartitionCount(all, stack, active);
      hide Ring, Partition;
      if |stack| == 0 { return false; }
      var t, front := stack[|stack| - 1], stack[..|stack| - 1];
      assert stack == front + [t];
      Taken(all, front, t, active);
      NotInRing(all, header, active, t);
      AddPrevSpec(links, header, active, t);
      stack := front;
      timers := timers[t := Timer(task, until)];
      links := Add(links, t, links.prev[header], header);
      active := active + [t];
      return true;
    }

    /**
     The timer loop of `clock_isr`: exactly the tasks whose time has come, in the order in which they
     went to sleep.
     */
    method Expire(now: nat) returns (woken: seq<nat>)
      requires Valid()
      modifies `stack, `links, `active
      ensures Valid() && forall t :: t in old(active) ==> t in timers
      ensures woken == Woken(old(active), timers, now) && active == Pending(old(active), timers, now)
    {
      hide Ring, Partition, Walked, Woken, Pending;
      ghost var s := active;
      ghost var kept: seq<Node>, rest := [], active;
      woken := [];
      assert [] + s == s;
      RingNext(links, header, [], s);
      WalkStart(s, timers, now);
      var hdr := links.next[header];
      while hdr != header
        invariant Valid() && active == kept + rest && hdr == (if rest == [] then header else rest[0]) && header !in rest
        invariant Walked(s, kept, rest, woken, timers, now)
        decreases |rest|
      {
        ghost var tail := rest[1..];
        var t := hdr;
        assert rest == [t] + tail && kept + rest == kept + [t] + tail;
        RingNext(links, header, kept + [t], tail);
        WalkStep(s, kept, rest, woken, timers, now);
        hdr := links.next[t];
        if timers[t].time <= now {
          woken := woken + [timers[t].thread];
          Unlink(kept, t, tail);
        } else {
          kept := kept + [t];
        }
        rest := tail;
      }
      WalkEnd(s, kept, woken, timers, now);
    }

    /** `list_del` and `free_timer`: there is always room on the stack. */
    method Unlink(ghost a: seq<Node>, t: Node, ghost b: seq<Node>)
      requires Valid() && active == a + [t] + b
      modifies `stack, `links, `active
      ensures Valid() && active == a + b
    {
      DelSpec(links, header, active, |a|);
      assert active[..|a|] + active[|a| + 1..] == a + b;
      Move(all, stack, a, t, b);
      PartitionCount(all, stack, active);
      links := Del(links, t);
      if |stack| != TIMER_COUNT { stack := stack + [t]; }
      active := a + b;
    }
  }

  /** The walk over `s` has dealt with all but `rest`: `kept` stay, the tasks in `woken` were woken. */
  ghost predicate Walked(s: seq<Node>, kept: seq<Node>, rest: seq<Node>, woken: seq<nat>,
                         timers: map<Node, Timer>, now: nat) {
    && (forall t :: t in s ==> t in timers) && (forall t :: t in rest ==> t in s)
    && woken + Woken(rest, timers, now) == Woken(s, timers, now)
    && kept + Pending(rest, timers, now) == Pending(s, timers, now)
  }

  lemma WalkStart(s: seq<Node>, timers: map<Node, Timer>, now: nat)
    requires forall t :: t in s ==> t in timers
    ensures Walked(s, [], s, [], timers, now)
  {
  }

  lemma WalkStep(s: seq<Node>, kept: seq<Node>, rest: seq<Node>, woken: seq<nat>, timers: map<Node, Timer>, now: nat)
    requires rest != [] && Walked(s, kept, rest, woken, timers, now)
    ensures rest[0] in timers
    ensures if timers[rest[0]].time <= now
      then Walked(s, kept, rest[1..], woken + [timers[rest[0]].thread], timers, now)
      else Walked(s, kept + [rest[0]], rest[1..], woken, timers, now)
  {
    assert rest[0] in rest;
    Regroup(woken, [timers[rest[0]].thread], Woken(rest[1..], timers, now));
    Regroup(kept, [rest[0]], Pending(rest[1..], timers, now));
  }

  lemma WalkEnd(s: seq<Node>, kept: seq<Node>, woken: seq<nat>, timers: map<Node, Timer>, now: nat)
    requires Walked(s, kept, [], woken, timers, now)
    ensures (forall t :: t in s ==> t in timers) && woken == Woken(s, timers, now) && kept == Pending(s, timers, now)
  {
  }

  lemma Regroup<T>(a: seq<T>, b: seq<T>, c: seq<T>)
    ensures a + (b + c) == a + b + c && a + ([] + c) == a + c
  {
  }

  lemma NotInRing(all: set<Node>, header: Node, active: seq<Node>, t: Node)
    requires header !in all && t in all && t !in active
    ensures t !in [header] + active
  {
  }

  lemma Taken(all: set<Node>, free: seq<Node>, t: Node, active: seq<Node>)
    requires Partition(all, free + [t], active)
    ensures Partition(all, free, active + [t]) && t !in active && t in all
  {
    var s, r := free + [t] + active, free + (active + [t]);
    var f, m := |free|, |active|;
    forall i, j | 0 <= i < j < |r| ensures r[i] != r[j] {
      var i' := if i < f then i else if i < f + m then i + 1 else f;
      var j' := if j < f then j else if j < f + m then j + 1 else f;
      assert r[i] == s[i'] && r[j] == s[j'] && i' != j';
    }
    assert forall x :: x in s <==> x in r;
    assert s[f] == t;
    assert forall k :: 0 <= k < m ==> s[f + 1 + k] == active[k];
  }

  /** The successor of the last node of a prefix of the ring. */
  lemma RingNext(l: Links, h: Node, a: seq<Node>, b: seq<Node>)
    requires Ring(l, h, a + b)
    ensures var x := if a == [] then h else a[|a| - 1];
      x in l.next && l.next[x] == (if b == [] then h else b[0]) && h !in b
  {
    assert [h] + (a + b) + [h] == ([h] + a) + (b + [h]);
    ChainConcat(l, [h] + a, b + [h]);
    FirstApart(h, a + b);
  }
}
