/**
 The ready queues of the multi-level feedback scheduler (kernel/task/schedule.c:80-139):
 four intrusive rings, changed in place. A task is named by the address of its `run_list`.
 */
module Scheduler {
  import opened Platform
  import opened Seqs
  import opened Rings

  const MAX_PRIORITY: nat := 3   // TASK_MAX_PRIORITY

  /** The four ready queues as sequences, lowest priority first. */
  type Queues = q: seq<seq<Node>> | |q| == 4 witness [[], [], [], []]

  /** The tasks of the queues from priority 3 down to `i`, in dispatch order. */
  function Tops(q: Queues, i: nat): seq<Node>
    requires i <= 3
    decreases 3 - i
  {
    if i == 3 then q[3] else Tops(q, i + 1) + q[i]
  }

  /** The rings of the four headers are well formed and share no node. */
  ghost predicate Rings4(l: Links, heads: seq<Node>, q: Queues)
    requires |heads| == 4
  {
    && (forall i :: 0 <= i < 4 ==> Ring(l, heads[i], q[i]))
    && (forall i, j, x :: 0 <= i < 4 && 0 <= j < 4 && x in [heads[i]] + q[i] && x in [heads[j]] + q[j] ==> i == j)
  }

  /** Every queued task has the priority of the queue it is in. */
  ghost predicate Ranked(prio: map<Node, nat>, q: Queues) {
    forall i, x :: 0 <= i < 4 && x in q[i] ==> x in prio && prio[x] == i
  }

  class ReadyQueues {
    const heads: seq<Node>          // addresses of scheduler.queue[0..3]
    var links: Links
    var prio: map<Node, nat>        // the `priority` field of each task
    ghost var q: Queues

    ghost predicate Valid()
      reads this
    {
      |heads| == 4 && Rings4(links, heads, q) && Ranked(prio, q)
    }

    /** `scheduler_init` with the four headers at `heads`; `prio` are the fields of the existing tasks. */
    constructor (heads: seq<Node>, prio: map<Node, nat>)
      requires |heads| == 4 && NoDup(heads)
      ensures Valid() && q == [[], [], [], []] && this.heads == heads && this.prio == prio
    {
      this.heads := heads;
      this.prio := prio;
      this.q := [[], [], [], []];
      InitAll(heads);
      links := Init(Init(Init(Init(Links(map[], map[]), heads[0]), heads[1]), heads[2]), heads[3]);
    }

    /** A write to the `priority` field of a task that is not queued. */
    method SetPriority(task: Node, p: nat)
      requires Valid() && forall i :: 0 <= i < 4 ==> task !in q[i]
      modifies this`prio
      ensures Valid() && prio == old(prio)[task := p]
    {
      prio := prio[task := p];
    }

    /** A task that is not queued ceases to exist. */
    method Forget(task: Node)
      requires Valid() && forall i :: 0 <= i < 4 ==> task !in q[i]
      modifies this`prio
      ensures Valid() && prio == old(prio) - {task}
    {
      prio := prio - {task};
    }

    /** `sched_task_add`: the task joins the end of the queue of its priority. */
    method SchedTaskAdd(task: Node)
      requires Valid() && task in prio && prio[task] <= MAX_PRIORITY
      requires forall i :: 0 <= i < 4 ==> task !in [heads[i]] + q[i]
      modifies this`links, this`q
      ensures Valid() && q == old(q)[prio[task] := old(q)[prio[task]] + [task]]
    {
      var p := prio[task];
      AddKeeps(links, heads, q, p, task);
      links := Add(links, task, links.prev[heads[p]], heads[p]);
      q := q[p := q[p] + [task]];
    }

    /** `chose_next_task`: the first task of the highest nonempty queue, removed from it. */
    method ChoseNextTask() returns (r: Option<Node>)
      requires Valid()
      modifies this`links, this`q
      ensures Valid()
      ensures r.None? <==> forall i :: 0 <= i < 4 ==> old(q)[i] == []
      ensures r.None? ==> q == old(q) && links == old(links)
      ensures r.Some? ==> exists i :: 0 <= i < 4 && Dispatches(old(q), q, i, r.value)
    {
      var i: int := MAX_PRIORITY;
      while i >= 0
        invariant -1 <= i <= 3 && forall j :: i < j < 4 ==> q[j] == []
        invariant q == old(q) && links == old(links)
      {
        RingNonempty(links, heads[i], q[i]);
        if links.next[heads[i]] != heads[i] {
          r := QueueGet(i);
          assert Dispatches(old(q), q, i, r.value);
          return;
        }
        i := i - 1;
      }
      r := None;
    }

    /** `queue_get` on a nonempty queue. */
    method QueueGet(i: nat) returns (r: Option<Node>)
      requires Valid() && i < 4 && q[i] != []
      modifies this`links, this`q
      ensures Valid() && r == Some(old(q)[i][0]) && q == old(q)[i := old(q)[i][1..]]
    {
      hide Ring;
      RingEnds(links, heads[i], q[i]);
      var first := links.next[heads[i]];
      RemoveFirstKeeps(links, heads, q, i);
      links := Del(links, first);
      q := q[i := q[i][1..]];
      r := Some(first);
    }

    /** The splicing loop of `reset_priority`, lines 97-120. */
    method SpliceAll()
      requires Valid()
      modifies this`links
      ensures Rings4(links, heads, [[], [], [], Tops(q, 0)])
    {
      hide Ring, Chain;
      var hdr := heads[MAX_PRIORITY];
      var hdr1: Option<Node>, tail1 := None, hdr;
      RingEnds(links, hdr, q[3]);
      SplicingStarts(links, heads, q);
      var tail := links.prev[hdr];
      var i: int := MAX_PRIORITY - 1;
      while i >= 0
        invariant -1 <= i <= 2 && Splicing(links, heads, q, i + 1)
        invariant tail == ([hdr] + Tops(q, i + 1))[|Tops(q, i + 1)|]
        invariant hdr1.None? ==> Ring(links, hdr, Tops(q, i + 1))
        invariant hdr1.Some? ==> tail == tail1
      {
        var queue := heads[i];
        RingEnds(links, queue, q[i]);
        RingNonempty(links, queue, q[i]);
        var first := links.next[queue];
        if links.next[first] != first {      // list_empty(queue->next)
          hdr1 := Some(first);
          tail1 := links.prev[queue];
          SpliceKeeps(links, heads, q, i);
          links := Link(links, tail, first);
          tail := tail1;
          links := Init(links, queue);
        } else {
          SkipKeeps(links, heads, q, i);
        }
        i := i - 1;
      }
      if hdr1.Some? {
        CloseRing(links, heads, q);
        links := Link(links, tail1, hdr);
      }
      SplicedAll(links, heads, q);
    }

    /**
     The reverse scan at lines 122-128, which stops at the first task that already has top
     priority. `old3` is the number of tasks that were in the top queue before the splice.
     */
    method RaiseScan(ghost s: seq<Node>, ghost old3: nat)
      requires |heads| == 4 && Ring(links, heads[3], s) && old3 <= |s|
      requires forall j :: 0 <= j < |s| ==> s[j] in prio && (prio[s[j]] == MAX_PRIORITY <==> j < old3)
      modifies this`prio
      ensures prio.Keys == old(prio).Keys
      ensures forall x :: x in prio ==> prio[x] == if x in s then MAX_PRIORITY else old(prio)[x]
    {
      var head := heads[MAX_PRIORITY];
      RingBack(links, head, s, |s| + 1);
      var hdr := links.prev[head];
      ghost var k := |s|;
      while hdr != head
        invariant 0 <= k <= |s| && hdr == ([head] + s)[k] && prio.Keys == old(prio).Keys
        invariant forall x :: x in prio ==> prio[x] == if x in s[k..] then MAX_PRIORITY else old(prio)[x]
        decreases k
      {
        RaisedBelow(head, s, k);
        if prio[hdr] == MAX_PRIORITY {
          assert k - 1 < old3;
          break;
        }
        RingBack(links, head, s, k);
        prio := prio[hdr := MAX_PRIORITY];
        hdr := links.prev[hdr];
        k := k - 1;
      }
      assert k <= old3 by { assert ([head] + s)[0] == head; }
      forall x | x in prio ensures prio[x] == if x in s then MAX_PRIORITY else old(prio)[x] {
        assert x in s <==> x in s[..k] || x in s[k..];
      }
    }

    /** `reset_priority`: every queued task moves to the top queue, in dispatch order, with top priority. */
    method ResetPriority()
      requires Valid()
      modifies this`links, this`prio, this`q
      ensures Valid() && q == [[], [], [], Tops(old(q), 0)]
      ensures prio.Keys == old(prio).Keys
      ensures forall x :: x in prio ==> prio[x] == if x in Tops(old(q), 0) then MAX_PRIORITY else old(prio)[x]
    {
      hide Ring, Rings4, Ranked, Tops;
      ghost var all := Tops(q, 0);
      SpliceAll();
      TopsRanked(prio, q);
      TopRing(links, heads, all);
      RaiseScan(all, |q[3]|);
      q := [[], [], [], all];
      TopRanked(prio, all);
    }
  }

  /** Queue `i` is the highest nonempty one and loses its first task `x`; nothing else changes. */
  ghost predicate Dispatches(q0: Queues, q: Queues, i: nat, x: Node)
    requires i < 4
  {
    && (forall j :: i < j < 4 ==> q0[j] == [])
    && q0[i] != [] && x == q0[i][0] && q == q0[i := q0[i][1..]]
  }

  lemma InitAll(heads: seq<Node>)
    requires |heads| == 4 && NoDup(heads)
    ensures Rings4(Init(Init(Init(Init(Links(map[], map[]), heads[0]), heads[1]), heads[2]), heads[3]),
                   heads, [[], [], [], []])
  {
    var l0 := Init(Links(map[], map[]), heads[0]);
    var l1 := Init(l0, heads[1]);
    var l2 := Init(l1, heads[2]);
    InitSpec(Links(map[], map[]), heads[0]);
    InitSpec(l0, heads[1]);
    InitSpec(l1, heads[2]);
    InitSpec(l2, heads[3]);
    RingFrame(l0, heads[1], heads[1], heads[0], []);
    RingFrame(l1, heads[2], heads[2], heads[0], []);
    RingFrame(l1, heads[2], heads[2], heads[1], []);
    RingFrame(l2, heads[3], heads[3], heads[0], []);
    RingFrame(l2, heads[3], heads[3], heads[1], []);
    RingFrame(l2, heads[3], heads[3], heads[2], []);
  }

  lemma AddKeeps(l: Links, heads: seq<Node>, q: Queues, p: nat, x: Node)
    requires |heads| == 4 && Rings4(l, heads, q) && p < 4
    requires forall i :: 0 <= i < 4 ==> x !in [heads[i]] + q[i]
    ensures heads[p] in l.prev && Rings4(Add(l, x, l.prev[heads[p]], heads[p]), heads, q[p := q[p] + [x]])
  {
    RingEnds(l, heads[p], q[p]);
    var z := l.prev[heads[p]];
    assert z in [heads[p]] + q[p];
    AddPrevSpec(l, heads[p], q[p], x);
    var l' := Add(l, x, z, heads[p]);
    forall i | 0 <= i < 4 && i != p ensures Ring(l', heads[i], q[i]) {
      assert heads[p] in [heads[p]] + q[p];
      RingFrame(l, z, x, heads[i], q[i]);
      RingFrame(Link(l, z, x), x, heads[p], heads[i], q[i]);
    }
  }

  /** `list_empty` tells whether a ring has members; it may also be asked of the first member. */
  lemma RingNonempty(l: Links, h: Node, s: seq<Node>)
    requires Ring(l, h, s)
    ensures h in l.next && l.next[h] in l.next
    ensures s == [] <==> l.next[h] == h
    ensures s == [] <==> l.next[l.next[h]] == l.next[h]
  {
    RingEnds(l, h, s);
    if s != [] {
      var c := s + [h];
      assert Linked(l, c[0], c[1]);
      assert ([h] + s)[0] != ([h] + s)[1];
      if |s| > 1 { assert ([h] + s)[1] != ([h] + s)[2]; }
    }
  }

  lemma RemoveFirstKeeps(l: Links, heads: seq<Node>, q: Queues, p: nat)
    requires |heads| == 4 && Rings4(l, heads, q) && p < 4 && q[p] != []
    ensures q[p][0] in l.next && q[p][0] in l.prev
    ensures Rings4(Del(l, q[p][0]), heads, q[p := q[p][1..]])
  {
    hide Chain;
    var x := q[p][0];
    DelSpec(l, heads[p], q[p], 0);
    assert q[p][..0] + q[p][1..] == q[p][1..];
    NeighboursInside(l, heads[p], q[p]);
    var l' := Del(l, x);
    forall i | 0 <= i < 4 && i != p ensures Ring(l', heads[i], q[i]) {
      RingFrame(l, l.prev[x], l.next[x], heads[i], q[i]);
    }
  }

  lemma NeighboursInside(l: Links, h: Node, s: seq<Node>)
    requires Ring(l, h, s) && s != []
    ensures s[0] in l.next && s[0] in l.prev && l.prev[s[0]] in [h] + s && l.next[s[0]] in [h] + s
  {
    RingEnds(l, h, s);
    var c := s + [h];
    assert Linked(l, c[0], c[1]) && Linked(l, ([h] + s)[0], ([h] + s)[1]);
    assert c[1] == h || c[1] == s[1];
  }

  // ------------------------------------------------------------ reset_priority

  /** No header or task occurs twice in the four queues. */
  ghost predicate Apart(heads: seq<Node>, q: Queues)
    requires |heads| == 4
  {
    && (forall i :: 0 <= i < 4 ==> NoDup([heads[i]] + q[i]))
    && (forall i, j, x :: 0 <= i < 4 && 0 <= j < 4 && x in [heads[i]] + q[i] && x in [heads[j]] + q[j] ==> i == j)
  }

  /** Loop invariant: the queues from 3 down to `i` are chained behind the top header, the rest is untouched. */
  ghost predicate Splicing(l: Links, heads: seq<Node>, q: Queues, i: nat)
    requires |heads| == 4 && i <= 3
  {
    && Apart(heads, q) && Chain(l, [heads[3]] + Tops(q, i))
    && (forall j :: 0 <= j < i && j < 3 ==> Ring(l, heads[j], q[j]))
    && (forall j :: i <= j < 3 ==> Ring(l, heads[j], []))
  }

  lemma SplicingStarts(l: Links, heads: seq<Node>, q: Queues)
    requires |heads| == 4 && Rings4(l, heads, q)
    ensures Splicing(l, heads, q, 3)
  {
    RingEnds(l, heads[3], q[3]);
  }

  /** The last node chained behind the top header, or that header. */
  function TopTail(heads: seq<Node>, q: Queues, i: nat): Node
    requires |heads| == 4 && i <= 3
  {
    ([heads[3]] + Tops(q, i))[|Tops(q, i)|]
  }

  lemma {:induction false} TopsAvoid(q: Queues, i: nat, x: Node)
    requires i <= 3 && forall k :: i <= k < 4 ==> x !in q[k]
    ensures x !in Tops(q, i)
    decreases 3 - i
  {
    if i < 3 { TopsAvoid(q, i + 1, x); }
  }

  /** A node of one queue is no node of another queue's ring. */
  lemma OtherRing(heads: seq<Node>, q: Queues, j: nat, x: Node, k: nat)
    requires |heads| == 4 && Apart(heads, q) && j < 4 && k < 4 && j != k && x in [heads[j]] + q[j]
    ensures x !in [heads[k]] + q[k] && x !in q[k] && x != heads[k]
  {
    assert heads[k] in [heads[k]] + q[k];
    assert forall y :: y in q[k] ==> y in [heads[k]] + q[k];
  }

  /** Nothing in the queues below `i`, and no lower header, is among the chained nodes. */
  lemma ChainedApart(heads: seq<Node>, q: Queues, i: nat, x: Node, j: nat)
    requires |heads| == 4 && Apart(heads, q) && j < i <= 3 && x in [heads[j]] + q[j]
    ensures x !in [heads[3]] + Tops(q, i)
  {
    forall k | i <= k < 4 ensures x !in q[k] && x != heads[k] { OtherRing(heads, q, j, x, k); }
    TopsAvoid(q, i, x);
  }

  lemma HeaderApart(heads: seq<Node>, q: Queues, i: nat, j: nat)
    requires |heads| == 4 && Apart(heads, q) && j < 3 && i <= 3
    ensures heads[j] !in [heads[3]] + Tops(q, i)
  {
    var x := heads[j];
    forall k | i <= k < 4 ensures x !in q[k] && (k == 3 ==> x != heads[k]) {
      if k == j { FirstApart(x, q[j]); } else { OtherRing(heads, q, j, x, k); }
    }
    TopsAvoid(q, i, x);
  }

  /** The chained nodes are distinct. */
  lemma {:induction false} TopsNoDup(heads: seq<Node>, q: Queues, i: nat)
    requires |heads| == 4 && Apart(heads, q) && i <= 3
    ensures NoDup([heads[3]] + Tops(q, i))
    decreases 3 - i
  {
    if i < 3 {
      TopsNoDup(heads, q, i + 1);
      forall x | x in q[i] ensures x !in [heads[3]] + Tops(q, i + 1) {
        ChainedApart(heads, q, i + 1, x, i);
      }
      NoDupConcat([heads[3]] + Tops(q, i + 1), heads[i], q[i]);
      assert [heads[3]] + Tops(q, i) == [heads[3]] + Tops(q, i + 1) + q[i];
    }
  }

  lemma NoDupConcat(a: seq<Node>, h: Node, b: seq<Node>)
    requires NoDup(a) && NoDup([h] + b) && forall x :: x in b ==> x !in a
    ensures NoDup(a + b)
  {
    var n := |a|;
    forall i, j | 0 <= i < j < |a + b| ensures (a + b)[i] != (a + b)[j] {
      if i >= n {
        assert ([h] + b)[i - n + 1] == b[i - n] && ([h] + b)[j - n + 1] == b[j - n];
      } else if j >= n {
        assert b[j - n] in b;
      }
    }
  }

  /** One round of the splicing loop on a nonempty queue. */
  lemma SpliceKeeps(l: Links, heads: seq<Node>, q: Queues, i: nat)
    requires |heads| == 4 && i < 3 && Splicing(l, heads, q, i + 1) && q[i] != []
    ensures var l' := Init(Link(l, TopTail(heads, q, i + 1), q[i][0]), heads[i]);
      Splicing(l', heads, q, i) && TopTail(heads, q, i) == q[i][|q[i]| - 1]
  {
    hide Ring, Chain, Apart;
    var h, s, t := heads[i], q[i], TopTail(heads, q, i + 1);
    var top := [heads[3]] + Tops(q, i + 1);
    var l1 := Link(l, t, s[0]);
    SpliceChain(l, heads, q, i);
    assert [heads[3]] + Tops(q, i) == top + s;
    InitSpec(l1, h);
    forall j | 0 <= j < 3 && j != i ensures Ring(Init(l1, h), heads[j], if j < i then q[j] else []) {
      SpliceFrame(l, heads, q, i, j);
    }
  }

  lemma SpliceChain(l: Links, heads: seq<Node>, q: Queues, i: nat)
    requires |heads| == 4 && i < 3 && Splicing(l, heads, q, i + 1) && q[i] != []
    ensures var l' := Init(Link(l, TopTail(heads, q, i + 1), q[i][0]), heads[i]);
      Chain(l', [heads[3]] + Tops(q, i + 1) + q[i])
  {
    hide Chain, Tops;
    var h, s, t := heads[i], q[i], TopTail(heads, q, i + 1);
    var top := [heads[3]] + Tops(q, i + 1);
    var l1 := Link(l, t, s[0]);
    RingEnds(l, h, s);
    TopsNoDup(heads, q, i + 1);
    forall x | x in s ensures x !in top { ChainedApart(heads, q, i + 1, x, i); }
    assert t in top && s[0] in s;
    assert forall k :: 0 <= k < |s| ==> s[k] == ([h] + s)[k + 1];
    ChainFrame(l, t, s[0], top);
    ChainFrame(l, t, s[0], s);
    ChainConcat(l1, top, s);
    HeaderApart(heads, q, i + 1, i);
    FirstApart(h, s);
    ChainFrame(l1, h, h, top + s);
  }

  lemma SpliceFrame(l: Links, heads: seq<Node>, q: Queues, i: nat, j: nat)
    requires |heads| == 4 && i < 3 && j < 3 && j != i && Splicing(l, heads, q, i + 1) && q[i] != []
    ensures var l' := Init(Link(l, TopTail(heads, q, i + 1), q[i][0]), heads[i]);
      Ring(l', heads[j], if j < i then q[j] else [])
  {
    var h, s0, t := heads[i], q[i][0], TopTail(heads, q, i + 1);
    var r := if j < i then q[j] else [];
    var top := [heads[3]] + Tops(q, i + 1);
    assert t in top;
    forall x | x in [heads[j]] + r ensures x != t && x != s0 && x != h {
      OtherRing(heads, q, j, x, i);
      if j < i { ChainedApart(heads, q, i + 1, x, j); } else { HeaderApart(heads, q, i + 1, j); }
    }
    RingFrame(l, t, s0, heads[j], r);
    RingFrame(Link(l, t, s0), h, h, heads[j], r);
  }

  lemma SkipKeeps(l: Links, heads: seq<Node>, q: Queues, i: nat)
    requires |heads| == 4 && i < 3 && Splicing(l, heads, q, i + 1) && q[i] == []
    ensures Splicing(l, heads, q, i) && Tops(q, i) == Tops(q, i + 1)
  {
    assert Tops(q, i) == Tops(q, i + 1) + [] == Tops(q, i + 1);
    assert Ring(l, heads[i], q[i]);
  }

  /** Lines 116-120: the last spliced node is linked back to the top header. */
  lemma CloseRing(l: Links, heads: seq<Node>, q: Queues)
    requires |heads| == 4 && Splicing(l, heads, q, 0)
    ensures var l' := Link(l, TopTail(heads, q, 0), heads[3]);
      Splicing(l', heads, q, 0) && Ring(l', heads[3], Tops(q, 0))
  {
    var h, t := heads[3], TopTail(heads, q, 0);
    var top := [h] + Tops(q, 0);
    var l' := Link(l, t, h);
    TopsNoDup(heads, q, 0);
    ChainFrame(l, t, h, top);
    ChainConcat(l', top, [h]);
    forall j | 0 <= j < 3 ensures Ring(l', heads[j], []) {
      HeaderApart(heads, q, 0, j);
      RingFrame(l, t, h, heads[j], []);
    }
  }

  lemma SplicedAll(l: Links, heads: seq<Node>, q: Queues)
    requires |heads| == 4 && Splicing(l, heads, q, 0) && Ring(l, heads[3], Tops(q, 0))
    ensures Rings4(l, heads, [[], [], [], Tops(q, 0)])
  {
    var q': Queues := [[], [], [], Tops(q, 0)];
    forall j | 0 <= j < 3 ensures heads[j] !in [heads[3]] + Tops(q, 0) { HeaderApart(heads, q, 0, j); }
    forall i, j | 0 <= i < 4 && 0 <= j < 4 && heads[i] == heads[j] ensures i == j {
      assert heads[i] in [heads[i]] + q[i] && heads[j] in [heads[j]] + q[j];
    }
  }

  /** Following `prev` in a ring. */
  lemma RingBack(l: Links, h: Node, s: seq<Node>, k: nat)
    requires Ring(l, h, s) && 1 <= k <= |s| + 1
    ensures var c := [h] + s + [h]; c[k] in l.prev && l.prev[c[k]] == c[k - 1]
  {
    var c := [h] + s + [h];
    ChainConcat(l, c[..k], c[k..]);
    assert c == c[..k] + c[k..];
  }

  lemma RaisedBelow(h: Node, s: seq<Node>, k: nat)
    requires NoDup([h] + s) && k <= |s| && ([h] + s)[k] != h
    ensures k >= 1 && s[k - 1] == ([h] + s)[k] && s[k - 1] !in s[k..] && s[k - 1..] == [s[k - 1]] + s[k..]
  {
    forall j | k <= j < |s| ensures s[j] != s[k - 1] {
      assert ([h] + s)[j + 1] == s[j];
    }
  }

  lemma TopRing(l: Links, heads: seq<Node>, all: seq<Node>)
    requires |heads| == 4 && Rings4(l, heads, [[], [], [], all])
    ensures Ring(l, heads[3], all)
  {
    var q: Queues := [[], [], [], all];
    assert q[3] == all;
  }

  lemma TopRanked(prio: map<Node, nat>, all: seq<Node>)
    requires forall x :: x in all ==> x in prio && prio[x] == MAX_PRIORITY
    ensures Ranked(prio, [[], [], [], all])
  {
  }

  lemma TopsRanked(prio: map<Node, nat>, q: Queues)
    requires Ranked(prio, q)
    ensures |q[3]| <= |Tops(q, 0)|
    ensures var s := Tops(q, 0);
      forall j :: 0 <= j < |s| ==> s[j] in prio && (prio[s[j]] == MAX_PRIORITY <==> j < |q[3]|)
  {
    var rest := q[2] + (q[1] + q[0]);
    var s := Tops(q, 0);
    assert s == q[3] + rest by {
      assert Tops(q, 2) == q[3] + q[2] && Tops(q, 1) == q[3] + q[2] + q[1];
    }
    hide Tops, Ranked;
    forall j | 0 <= j < |s| ensures s[j] in prio && (prio[s[j]] == MAX_PRIORITY <==> j < |q[3]|) {
      if j < |q[3]| {
        RankedAt(prio, q, 3, s[j]);
      } else {
        LowerRanked(prio, q, rest[j - |q[3]|]);
      }
    }
  }

  lemma RankedAt(prio: map<Node, nat>, q: Queues, i: nat, x: Node)
    requires Ranked(prio, q) && i < 4 && x in q[i]
    ensures x in prio && prio[x] == i
  {
  }

  lemma LowerRanked(prio: map<Node, nat>, q: Queues, x: Node)
    requires Ranked(prio, q) && x in q[2] + (q[1] + q[0])
    ensures x in prio && prio[x] != MAX_PRIORITY
  {
    var i := if x in q[2] then 2 else if x in q[1] then 1 else 0;
    RankedAt(prio, q, i, x);
  }
}
