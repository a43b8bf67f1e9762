/**
 The FIFO of kernel/lib/queue.c: a singly linked list behind a dummy head, with a `tail`
 pointer that goes stale when the queue empties. Nodes are addresses, 0 is NULL.
 */
module LfQueue {
  import opened Seqs

  type Node = nat

  const NULL: Node := 0

  /** Following `next` from `x` gives the nodes of `s` and then NULL. */
  predicate Follows(next: map<Node, Node>, x: Node, s: seq<Node>)
    decreases |s|
  {
    x in next && if s == [] then next[x] == NULL else next[x] == s[0] && s[0] != NULL && Follows(next, s[0], s[1..])
  }

  lemma {:induction false} FollowsFrame(next: map<Node, Node>, x: Node, s: seq<Node>, y: Node, v: Node)
    requires Follows(next, x, s) && y != x && y !in s
    ensures Follows(next[y := v], x, s)
    decreases |s|
  {
    if s != [] { FollowsFrame(next, s[0], s[1..], y, v); }
  }

  /** The last node of the list behind `x`. */
  function Final(x: Node, s: seq<Node>): Node { if s == [] then x else s[|s| - 1] }

  lemma {:induction false} FollowsAppend(next: map<Node, Node>, x: Node, s: seq<Node>, n: Node)
    requires Follows(next, x, s) && NoDup([x] + s) && n != NULL && n !in [x] + s
    ensures Follows(next[Final(x, s) := n][n := NULL], x, s + [n])
    decreases |s|
  {
    var next' := next[Final(x, s) := n][n := NULL];
    if s == [] {
      assert s + [n] == [n];
    } else {
      assert ([x] + s)[1..] == [s[0]] + s[1..];
      assert NoDup([s[0]] + s[1..]) by { TailNoDup(x, s); }
      FollowsAppend(next, s[0], s[1..], n);
      assert Final(s[0], s[1..]) == Final(x, s);
      assert (s + [n])[1..] == s[1..] + [n];
      assert Final(x, s) in s && ([x] + s)[0] == x;
      FirstApart(x, s);
    }
  }

  lemma TailNoDup(x: Node, s: seq<Node>)
    requires NoDup([x] + s) && s != []
    ensures NoDup([s[0]] + s[1..])
  {
    assert [s[0]] + s[1..] == s;
    forall i, j | 0 <= i < j < |s| ensures s[i] != s[j] {
      assert ([x] + s)[i + 1] == s[i] && ([x] + s)[j + 1] == s[j];
    }
  }

  class Queue {
    const dummy: Node
    var next: map<Node, Node>
    var tail: Node
    ghost var contents: seq<Node>

    ghost predicate Valid()
      reads this
    {
      && dummy != NULL && Follows(next, dummy, contents) && NoDup([dummy] + contents)
      && (contents != [] ==> tail == contents[|contents| - 1])
    }

    /** `lfQueue_init`. */
    constructor (dummy: Node)
      requires dummy != NULL
      ensures Valid() && contents == [] && this.dummy == dummy
    {
      this.dummy := dummy;
      next := map[dummy := NULL];
      tail := dummy;
      contents := [];
    }

    /** `lfQueue_put` of a node that is not in the queue. */
    method Put(node: Node)
      requires Valid() && node != NULL && node !in [dummy] + contents
      modifies this
      ensures Valid() && contents == old(contents) + [node]
    {
      FollowsAppend(next, dummy, contents, node);
      if next[dummy] == NULL {
        next := next[dummy := node];
      } else {
        next := next[tail := node];
      }
      next := next[node := NULL];
      tail := node;
      AppendSpec([dummy] + contents, node);
      assert [dummy] + (contents + [node]) == [dummy] + contents + [node];
      contents := contents + [node];
    }

    /** `lfQueue_get`; NULL when the queue is empty. */
    method Get() returns (node: Node)
      requires Valid()
      modifies this`next, this`contents
      ensures Valid()
      ensures old(contents) == [] ==> node == NULL && contents == []
      ensures old(contents) != [] ==> node == old(contents)[0] && node != NULL && contents == old(contents)[1..]
    {
      node := next[dummy];
      if node == NULL { return; }
      GetFollows(next, dummy, contents);
      next := next[dummy := next[node]];
      contents := contents[1..];
    }
  }

  lemma GetFollows(next: map<Node, Node>, x: Node, s: seq<Node>)
    requires Follows(next, x, s) && NoDup([x] + s) && s != []
    ensures s[0] in next && Follows(next[x := next[s[0]]], x, s[1..]) && NoDup([x] + s[1..])
  {
    FirstApart(x, s);
    if |s| > 1 {
      TailNoDup(x, s);
      FollowsFrame(next, s[1], s[2..], x, next[s[0]]);
      assert s[1..][1..] == s[2..];
    }
    forall i, j | 0 <= i < j < |[x] + s[1..]| ensures ([x] + s[1..])[i] != ([x] + s[1..])[j] {
      assert ([x] + s[1..])[j] == ([x] + s)[j + 1];
      assert ([x] + s[1..])[i] == if i == 0 then ([x] + s)[0] else ([x] + s)[i + 1];
    }
  }
}
