/**
 The intrusive circular doubly linked lists of kernel/include/lib/list.h. Nodes are
 addresses; `next` and `prev` are the two pointer fields of all nodes in memory.
 */
module Rings {
  import opened Seqs

  type Node = nat

  datatype Links = Links(next: map<Node, Node>, prev: map<Node, Node>)

  /** `a` and `b` point at each other. */
  predicate Linked(l: Links, a: Node, b: Node) {
    a in l.next && b in l.prev && l.next[a] == b && l.prev[b] == a
  }

  /** Consecutive nodes of `c` point at each other. */
  predicate Chain(l: Links, c: seq<Node>) {
    |c| <= 1 || (Linked(l, c[0], c[1]) && Chain(l, c[1..]))
  }

  /** The list with header `h` holds the nodes of `s`, in this order. */
  ghost predicate Ring(l: Links, h: Node, s: seq<Node>) {
    NoDup([h] + s) && Chain(l, [h] + s + [h])
  }

  lemma {:induction false} ChainConcat(l: Links, a: seq<Node>, b: seq<Node>)
    requires |a| >= 1 && |b| >= 1
    ensures Chain(l, a + b) <==> Chain(l, a) && Chain(l, b) && Linked(l, a[|a| - 1], b[0])
  {
    if |a| == 1 {
      assert (a + b)[1..] == b;
    } else {
      ChainConcat(l, a[1..], b);
      assert (a + b)[1..] == a[1..] + b;
    }
  }

  /** The two writes that make `a` and `b` neighbours. */
  function Link(l: Links, a: Node, b: Node): Links {
    Links(l.next[a := b], l.prev[b := a])
  }

  /** A chain survives a link whose source and target play no such role in it. */
  lemma {:induction false} ChainFrame(l: Links, a: Node, b: Node, c: seq<Node>)
    requires Chain(l, c)
    requires forall i :: 0 <= i < |c| - 1 ==> c[i] != a
    requires forall i :: 1 <= i < |c| ==> c[i] != b
    ensures Chain(Link(l, a, b), c)
  {
    if |c| > 1 {
      ChainFrame(l, a, b, c[1..]);
    }
  }

  /** Where a ring starts and ends. */
  lemma RingEnds(l: Links, h: Node, s: seq<Node>)
    requires Ring(l, h, s)
    ensures h in l.next && h in l.prev
    ensures l.next[h] == if s == [] then h else s[0]
    ensures l.prev[h] == if s == [] then h else s[|s| - 1]
    ensures Chain(l, [h] + s) && Chain(l, s + [h]) && Chain(l, s)
  {
    ChainConcat(l, [h] + s, [h]);
    assert [h] + s + [h] == [h] + (s + [h]);
    ChainConcat(l, [h], s + [h]);
    if s != [] { ChainConcat(l, s, [h]); }
  }

  /** A ring survives changes to the nodes of other lists. */
  lemma RingFrame(l: Links, a: Node, b: Node, h: Node, s: seq<Node>)
    requires Ring(l, h, s) && a !in [h] + s && b !in [h] + s
    ensures Ring(Link(l, a, b), h, s)
  {
    var c := [h] + s + [h];
    assert forall i :: 0 <= i < |c| ==> c[i] in [h] + s;
    ChainFrame(l, a, b, c);
  }

  // ------------------------------------------------------------- operations

  /** `list_header_init`. */
  function Init(l: Links, h: Node): Links { Link(l, h, h) }

  lemma InitSpec(l: Links, h: Node)
    ensures Ring(Init(l, h), h, [])
  {
    assert [h] + [] + [h] == [h, h];
    assert Chain(Init(l, h), [h, h][1..]);
  }

  /** `list_add`. */
  function Add(l: Links, x: Node, a: Node, b: Node): Links { Link(Link(l, a, x), x, b) }

  /** `list_add_prev` on a header appends at the end. */
  lemma AddPrevSpec(l: Links, h: Node, s: seq<Node>, x: Node)
    requires Ring(l, h, s) && x !in [h] + s
    ensures h in l.prev && Ring(Add(l, x, l.prev[h], h), h, s + [x])
  {
    hide Chain;
    RingEnds(l, h, s);
    var hs := [h] + s;
    var z := hs[|hs| - 1];
    AppendLinked(l, hs, x, h);
    assert [h] + (s + [x]) == hs + [x];
    AppendSpec(hs, x);
  }

  /** Linking a new node behind a chain, and closing it to `h`. */
  lemma AppendLinked(l: Links, c: seq<Node>, x: Node, h: Node)
    requires Chain(l, c) && NoDup(c) && |c| >= 1 && c[0] == h && x !in c
    ensures Chain(Link(Link(l, c[|c| - 1], x), x, h), c + [x] + [h])
  {
    hide Chain;
    var z := c[|c| - 1];
    var l1 := Link(l, z, x);
    var l2 := Link(l1, x, h);
    ChainFrame(l, z, x, c);
    ChainFrame(l1, x, h, c);
    ChainOne(l2, x);
    ChainOne(l2, h);
    ChainConcat(l2, c, [x]);
    ChainConcat(l2, c + [x], [h]);
  }

  lemma ChainOne(l: Links, x: Node)
    ensures Chain(l, [x])
  {
  }

  /** `list_add_next` on a header inserts at the front. */
  lemma AddNextSpec(l: Links, h: Node, s: seq<Node>, x: Node)
    requires Ring(l, h, s) && x !in [h] + s
    ensures h in l.next && Ring(Add(l, x, h, l.next[h]), h, [x] + s)
  {
    hide Chain;
    RingEnds(l, h, s);
    var sh := s + [h];
    SwapNoDup(h, s);
    PrependLinked(l, sh, x, h);
    assert [h] + ([x] + s) + [h] == [h] + ([x] + sh);
    PutBehindNoDup(h, s, x);
  }

  lemma SwapNoDup(h: Node, s: seq<Node>)
    requires NoDup([h] + s)
    ensures NoDup(s + [h])
  {
    var a, b := [h] + s, s + [h];
    forall i, j | 0 <= i < j < |b| ensures b[i] != b[j] {
      assert a[i + 1] == b[i] && a[if j == |s| then 0 else j + 1] == b[j];
    }
  }

  lemma PutBehindNoDup(h: Node, s: seq<Node>, x: Node)
    requires NoDup([h] + s) && x !in [h] + s
    ensures NoDup([h] + ([x] + s))
  {
    var a, b := [h] + s, [h] + ([x] + s);
    forall i, j | 0 <= i < j < |b| ensures b[i] != b[j] {
      assert i != 1 ==> b[i] == a[if i == 0 then 0 else i - 1];
      assert j != 1 ==> b[j] == a[j - 1];
    }
  }

  /** Linking a new node before a chain that ends in `h`, and closing it from `h`. */
  lemma PrependLinked(l: Links, c: seq<Node>, x: Node, h: Node)
    requires Chain(l, c) && NoDup(c) && |c| >= 1 && c[|c| - 1] == h && x !in c
    ensures Chain(Link(Link(l, h, x), x, c[0]), [h] + ([x] + c))
  {
    hide Chain;
    var l1 := Link(l, h, x);
    var l2 := Link(l1, x, c[0]);
    ChainFrame(l, h, x, c);
    ChainFrame(l1, x, c[0], c);
    ChainOne(l2, x);
    ChainOne(l2, h);
    ChainConcat(l2, [x], c);
    ChainConcat(l2, [h], [x] + c);
  }

  /** `list_del`: the neighbours of `x` are linked to each other. */
  function Del(l: Links, x: Node): Links
    requires x in l.next && x in l.prev
  {
    Link(l, l.prev[x], l.next[x])
  }

  lemma DelSpec(l: Links, h: Node, s: seq<Node>, i: nat)
    requires Ring(l, h, s) && i < |s|
    ensures s[i] in l.next && s[i] in l.prev && Ring(Del(l, s[i]), h, s[..i] + s[i + 1..])
  {
    hide Chain;
    var x := s[i];
    var a, b := [h] + s[..i], s[i + 1..] + [h];
    assert [h] + s + [h] == a + ([x] + b);
    ChainConcat(l, a, [x] + b);
    ChainConcat(l, [x], b);
    var y, z := a[|a| - 1], b[0];
    DelFrame(l, h, s, i);
    ChainConcat(Link(l, y, z), a, b);
    assert [h] + (s[..i] + s[i + 1..]) + [h] == a + b;
    NoDupWithout(h, s, i);
  }

  lemma DelFrame(l: Links, h: Node, s: seq<Node>, i: nat)
    requires NoDup([h] + s) && i < |s|
    requires Chain(l, [h] + s[..i]) && Chain(l, s[i + 1..] + [h])
    ensures var a, b := [h] + s[..i], s[i + 1..] + [h];
      Chain(Link(l, a[|a| - 1], b[0]), a) && Chain(Link(l, a[|a| - 1], b[0]), b)
  {
    var a, b := [h] + s[..i], s[i + 1..] + [h];
    var c := [h] + s;
    assert forall j :: 0 <= j < |a| ==> a[j] == c[j];
    assert forall j :: 0 <= j < |b| - 1 ==> b[j] == c[i + 2 + j];
    ChainFrame(l, a[|a| - 1], b[0], a);
    ChainFrame(l, a[|a| - 1], b[0], b);
  }

  lemma NoDupWithout(h: Node, s: seq<Node>, i: nat)
    requires NoDup([h] + s) && i < |s|
    ensures NoDup([h] + (s[..i] + s[i + 1..]))
  {
    var c, d := [h] + s, [h] + (s[..i] + s[i + 1..]);
    forall j, k | 0 <= j < k < |d| ensures d[j] != d[k] {
      assert d[j] == c[if j <= i then j else j + 1] && d[k] == c[if k <= i then k else k + 1];
    }
  }
}
