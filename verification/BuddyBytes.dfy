/**
 Conservation in the buddy allocator: the bytes on the free lists, as `allocator_size` of
 kernel/mm/page_alloc.c:250-262 adds them up, and the bytes of the live blocks are together
 all managed bytes.
 */
module BuddyBytes {
  import opened Platform
  import opened Dyadic
  import opened Seqs
  import opened BuddyModel

  /** The bytes of the blocks on the first `n` lists. */
  ghost function ListBytes(root: seq<seq<nat>>, n: nat): nat
    requires n <= |root|
  {
    if n == 0 then 0 else ListBytes(root, n - 1) + |root[n - 1]| * Bytes(n - 1)
  }

  ghost function FreeBytes(root: seq<seq<nat>>): nat { ListBytes(root, |root|) }

  /** The bytes of the live blocks that start below page `n`. */
  ghost function LiveBytes(live: map<nat, Page>, n: nat): nat {
    if n == 0 then 0 else LiveBytes(live, n - 1) + if n - 1 in live then live[n - 1].size else 0
  }

  ghost function Start(ps: seq<Page>, i: nat): nat
    requires i < |ps|
  {
    if ps[i].head && ps[i].refCnt == 0 then ps[i].size else 0
  }

  /** The bytes of the free blocks that start below page `n`. */
  ghost function FreeBelow(ps: seq<Page>, n: nat): nat
    requires n <= |ps|
  {
    if n == 0 then 0 else FreeBelow(ps, n - 1) + Start(ps, n - 1)
  }

  // ------------------------------------------------------------ over the tiling

  /** The blocks that start below page `n` reach to the end of the block of page `n - 1`. */
  lemma {:induction false} BlocksReach(ps: seq<Page>, n: nat)
    requires Tiled(ps) && 1 <= n <= |ps|
    ensures FreeBelow(ps, n) + LiveBytes(Live(ps), n) == End(ps, Owner(ps, n - 1)) * PAGE_SIZE
  {
    hide Tiled, Order, Owner;
    if n == 1 {
      FirstBlock(ps);
    } else {
      BlocksReach(ps, n - 1);
      NextBlock(ps, n - 1);
    }
  }

  lemma FirstBlock(ps: seq<Page>)
    requires Tiled(ps) && |ps| >= 1
    ensures FreeBelow(ps, 1) + LiveBytes(Live(ps), 1) == End(ps, Owner(ps, 0)) * PAGE_SIZE
  {
    assert BlockAt(ps, 0);
    assert FreeBelow(ps, 0) == 0 && LiveBytes(Live(ps), 0) == 0;
  }

  /** A page that starts a block starts it where the block before ends. */
  lemma NextBlock(ps: seq<Page>, n: nat)
    requires Tiled(ps) && 1 <= n < |ps|
    ensures var o, o' := Owner(ps, n - 1), Owner(ps, n);
      if ps[n].head then o' == n && End(ps, o) == n && ps[n].size == Pow2(Order(ps[n])) * PAGE_SIZE else o' == o
  {
    assert BlockAt(ps, Owner(ps, n - 1));
    if ps[n].head { assert BlockAt(ps, n); }
  }

  lemma TilingBytes(ps: seq<Page>)
    requires Tiled(ps)
    ensures FreeBelow(ps, |ps|) + LiveBytes(Live(ps), |ps|) == |ps| * PAGE_SIZE
  {
    if |ps| > 0 {
      BlocksReach(ps, |ps|);
      assert BlockAt(ps, Owner(ps, |ps| - 1));
    }
  }

  // ------------------------------------------------------------- over the lists

  ghost function FreeSet(ps: seq<Page>, n: nat, k: nat): set<nat> { set i: nat | i < n && IsFree(ps, i, k) }

  /** The bytes of free blocks below page `n` of orders below `m`. */
  ghost function OrderBytes(ps: seq<Page>, n: nat, m: nat): nat {
    if m == 0 then 0 else OrderBytes(ps, n, m - 1) + |FreeSet(ps, n, m - 1)| * Bytes(m - 1)
  }

  lemma FreeSetStep(ps: seq<Page>, n: nat, k: nat)
    ensures |FreeSet(ps, n + 1, k)| == |FreeSet(ps, n, k)| + if IsFree(ps, n, k) then 1 else 0
  {
    var a, b := FreeSet(ps, n, k), FreeSet(ps, n + 1, k);
    if IsFree(ps, n, k) {
      assert b == a + {n};
    } else {
      assert b == a;
    }
  }

  lemma {:induction false} OrderBytesStep(ps: seq<Page>, n: nat, m: nat)
    requires n < |ps|
    ensures OrderBytes(ps, n + 1, m) ==
            OrderBytes(ps, n, m) + if IsFree(ps, n, Order(ps[n])) && Order(ps[n]) < m then Bytes(Order(ps[n])) else 0
  {
    if m > 0 {
      OrderBytesStep(ps, n, m - 1);
      FreeSetStep(ps, n, m - 1);
      AddOne(|FreeSet(ps, n, m - 1)|, Bytes(m - 1));
    }
  }

  lemma AddOne(c: nat, b: nat)
    ensures (c + 1) * b == c * b + b
  {
  }

  lemma {:induction false} OrderBytesNone(ps: seq<Page>, m: nat)
    ensures OrderBytes(ps, 0, m) == 0
  {
    if m > 0 {
      OrderBytesNone(ps, m - 1);
      assert FreeSet(ps, 0, m - 1) == {};
    }
  }

  lemma {:induction false} SumByOrder(ps: seq<Page>, n: nat)
    requires Tiled(ps) && n <= |ps|
    ensures OrderBytes(ps, n, MAX_ORDER + 1) == FreeBelow(ps, n)
  {
    if n == 0 {
      OrderBytesNone(ps, MAX_ORDER + 1);
    } else {
      SumByOrder(ps, n - 1);
      OrderBytesStep(ps, n - 1, MAX_ORDER + 1);
      StartBytes(ps, n - 1);
    }
  }

  lemma StartBytes(ps: seq<Page>, i: nat)
    requires Tiled(ps) && i < |ps|
    ensures Start(ps, i) == if IsFree(ps, i, Order(ps[i])) && Order(ps[i]) <= MAX_ORDER then Bytes(Order(ps[i])) else 0
  {
    if ps[i].head { assert BlockAt(ps, i); }
  }

  lemma {:induction false} NoDupSize<T>(s: seq<T>, t: set<T>)
    requires NoDup(s) && forall x :: x in s <==> x in t
    ensures |s| == |t|
  {
    if s == [] {
      assert t == {};
    } else {
      assert s == [s[0]] + s[1..];
      FirstApart(s[0], s[1..]);
      NoDupSize(s[1..], t - {s[0]});
    }
  }

  lemma {:induction false} ListsByOrder(h: Heap, m: nat)
    requires Listed(h) && m <= MAX_ORDER + 1
    ensures ListBytes(h.root, m) == OrderBytes(h.pages, |h.pages|, m)
  {
    if m > 0 {
      ListsByOrder(h, m - 1);
      NoDupSize(h.root[m - 1], FreeSet(h.pages, |h.pages|, m - 1));
    }
  }

  /** Free and live bytes are together all bytes. */
  lemma Conservation(h: Heap)
    requires Inv(h)
    ensures FreeBytes(h.root) + LiveBytes(Live(h.pages), |h.pages|) == |h.pages| * PAGE_SIZE
  {
    ListsByOrder(h, MAX_ORDER + 1);
    SumByOrder(h.pages, |h.pages|);
    TilingBytes(h.pages);
  }

  // ------------------------------------------------------------- live blocks

  lemma {:induction false} LiveFrame(live: map<nat, Page>, live': map<nat, Page>, n: nat)
    requires forall i :: 0 <= i < n ==> (i in live <==> i in live') && (i in live ==> live'[i].size == live[i].size)
    ensures LiveBytes(live', n) == LiveBytes(live, n)
  {
    if n > 0 { LiveFrame(live, live', n - 1); }
  }

  lemma {:induction false} LiveAdded(live: map<nat, Page>, p: nat, pg: Page, n: nat)
    requires p < n && p !in live
    ensures LiveBytes(live[p := pg], n) == LiveBytes(live, n) + pg.size
  {
    if p == n - 1 {
      LiveFrame(live, live[p := pg], n - 1);
    } else {
      LiveAdded(live, p, pg, n - 1);
    }
  }

  lemma LiveRemoved(live: map<nat, Page>, p: nat, n: nat)
    requires p < n && p in live
    ensures LiveBytes(live, n) == LiveBytes(live - {p}, n) + live[p].size
  {
    assert live == (live - {p})[p := live[p]];
    LiveAdded(live - {p}, p, live[p], n);
  }

  // ---------------------------------------------------------- the size counter

  /** `allocator.size` is the free bytes less all bytes ever freed, in 32 bits. */
  predicate CounterIs(size: nat, freed: nat, free: nat) { size < U32 && (free - freed) % U32 == size }

  lemma CounterTakes(size: nat, freed: nat, free: nat, b: nat)
    requires CounterIs(size, freed, free) && b <= free && b <= U32
    ensures CounterIs((size + U32 - b) % U32, freed, free - b)
  {
  }

  /** The counter shows the free bytes exactly when the bytes freed so far are a multiple of 2^32. */
  lemma CounterRight(size: nat, freed: nat, free: nat)
    requires CounterIs(size, freed, free)
    ensures size == free % U32 <==> freed % U32 == 0
  {
  }

  /** One page allocated and put back: every byte is free again, and the counter shows a page less. */
  lemma OneFreeIsLost(free: nat)
    requires free >= PAGE_SIZE
    ensures var size := (free % U32 + U32 - PAGE_SIZE) % U32;
      CounterIs(free % U32, 0, free) && CounterIs(size, PAGE_SIZE, free) && size != free % U32
  {
    CounterTakes(free % U32, 0, free, PAGE_SIZE);
    CounterGives((free % U32 + U32 - PAGE_SIZE) % U32, 0, free - PAGE_SIZE, PAGE_SIZE);
    CounterRight((free % U32 + U32 - PAGE_SIZE) % U32, PAGE_SIZE, free);
  }

  lemma CounterGives(size: nat, freed: nat, free: nat, b: nat)
    requires CounterIs(size, freed, free)
    ensures CounterIs(size, freed + b, free + b)
  {
  }
}
