/**
 The state of the buddy page allocator (kernel/mm/page_alloc.c) as values: the page
 descriptors, the free list of each order, the invariant that every run keeps, and
 the four elementary moves that `__alloc_page` and `__free_page` are made of.
 */
module BuddyModel {
  import opened Platform
  import opened Dyadic
  import opened Seqs

  const MAX_ORDER: nat := 10

  /** The fields of `struct page` that the allocator uses; `size` is in bytes. */
  datatype Page = Page(head: bool, size: nat, refCnt: nat)

  /** `pages` are the managed descriptors, `root[k]` the free list of order `k`. */
  datatype Heap = Heap(pages: seq<Page>, root: seq<seq<nat>>)

  function Bytes(k: nat): nat { Pow2(k) * PAGE_SIZE }

  /** The order recorded in a descriptor: `log2(page->size >> 12)`. */
  function Order(pg: Page): nat {
    if pg.size / PAGE_SIZE == 0 then 0 else Log2(pg.size / PAGE_SIZE)
  }

  lemma OrderOfBytes(pg: Page, k: nat)
    requires pg.size == Bytes(k)
    ensures Order(pg) == k
  {
    Log2OfPow2(k);
  }

  function End(ps: seq<Page>, i: nat): nat
    requires i < |ps|
  {
    i + Pow2(Order(ps[i]))
  }

  ghost predicate BlockAt(ps: seq<Page>, i: nat)
    requires i < |ps|
  {
    var k := Order(ps[i]);
    && k <= MAX_ORDER
    && ps[i].size == Bytes(k)
    && Aligned(i, k)
    && i + Pow2(k) <= |ps|
    && (i + Pow2(k) < |ps| ==> ps[i + Pow2(k)].head)
    && (forall j :: i < j < i + Pow2(k) ==> !ps[j].head)
  }

  /** The descriptors are tiled by aligned power-of-two blocks, and the head flag marks their starts. */
  ghost predicate Tiled(ps: seq<Page>) {
    && (|ps| > 0 ==> ps[0].head)
    && (forall i {:trigger BlockAt(ps, i)} :: 0 <= i < |ps| && ps[i].head ==> BlockAt(ps, i))
    && (forall i :: 0 <= i < |ps| && !ps[i].head ==> ps[i].refCnt == 0)
  }

  ghost predicate IsFree(ps: seq<Page>, i: nat, k: nat) {
    i < |ps| && ps[i].head && ps[i].refCnt == 0 && Order(ps[i]) == k
  }

  /** Every free block is on exactly the list of its order, once. */
  ghost predicate Listed(h: Heap) {
    && |h.root| == MAX_ORDER + 1
    && (forall k :: 0 <= k <= MAX_ORDER ==> NoDup(h.root[k]))
    && (forall k, i: nat :: 0 <= k <= MAX_ORDER ==> (i in h.root[k] <==> IsFree(h.pages, i, k)))
  }

  /** No two buddies of equal order below `MAX_ORDER` are both free. */
  ghost predicate Coalesced(ps: seq<Page>) {
    forall i: nat, k: nat {:trigger Buddy(i, k)} ::
      k < MAX_ORDER && Aligned(i, k) && IsFree(ps, i, k) ==> !IsFree(ps, Buddy(i, k), k)
  }

  ghost predicate Inv(h: Heap) {
    Tiled(h.pages) && Listed(h) && Coalesced(h.pages)
  }

  // ---------------------------------------------------------------- tiling

  /** The head of the block that holds page `x`. */
  ghost function Owner(ps: seq<Page>, x: nat): (i: nat)
    requires Tiled(ps) && x < |ps|
    ensures i <= x && ps[i].head && x < End(ps, i)
  {
    if ps[x].head then x
    else
      var i := Owner(ps, x - 1);
      assert BlockAt(ps, i);
      i
  }

  lemma OwnerUnique(ps: seq<Page>, x: nat, i: nat)
    requires Tiled(ps) && x < |ps| && i <= x && ps[i].head && x < End(ps, i)
    ensures Owner(ps, x) == i
  {
    assert BlockAt(ps, i);
    assert BlockAt(ps, Owner(ps, x));
  }

  /** Two blocks of the tiling that meet are the same block. */
  lemma BlocksDisjoint(ps: seq<Page>, i: nat, j: nat)
    requires Tiled(ps) && i < |ps| && j < |ps| && ps[i].head && ps[j].head && i != j
    ensures End(ps, i) <= j || End(ps, j) <= i
  {
    assert BlockAt(ps, i) && BlockAt(ps, j);
  }

  /** What `__free_page` relies on: an in-range buddy is the head of a block that is no larger. */
  lemma BuddyIsHead(ps: seq<Page>, i: nat)
    requires Tiled(ps) && i < |ps| && ps[i].head
    requires Order(ps[i]) < MAX_ORDER && Aligned(i, Order(ps[i]))
    requires Buddy(i, Order(ps[i])) < |ps|
    ensures var b := Buddy(i, Order(ps[i])); ps[b].head && Order(ps[b]) <= Order(ps[i])
  {
    var k := Order(ps[i]);
    var b := Buddy(i, k);
    var m := Min(i, b);
    BuddyHalves(i, k);
    var s := Owner(ps, b);
    assert BlockAt(ps, s) && BlockAt(ps, i);
    var k' := Order(ps[s]);
    if k' <= k {
      if s != b {
        AlignedDown(b, k', k);
        AlignedNested(b, k', s, k');
        assert false;
      }
    } else {
      EnclosingHoldsBoth(m, k, s, k', b);
      BlocksDisjoint(ps, s, i);
      assert false;
    }
  }

  /** A dyadic block of order above `k` that holds one half of an aligned pair holds both. */
  lemma EnclosingHoldsBoth(m: nat, k: nat, s: nat, k': nat, b: nat)
    requires Aligned(m, k + 1) && Aligned(s, k') && k' > k
    requires b == m || b == m + Pow2(k)
    requires s <= b < s + Pow2(k')
    ensures s <= m && m + Pow2(k + 1) <= s + Pow2(k')
  {
    if s <= m {
      AlignedNested(m, k + 1, s, k');
    } else {
      AlignedDown(s, k + 1, k');
      AlignedNested(s, k + 1, m, k + 1);
    }
  }

  // ------------------------------------------------- the caller's view: live blocks

  /** The allocated blocks by first page, with the size and reference count of each. */
  ghost function Live(ps: seq<Page>): (m: map<nat, Page>) {
    map i: nat | i < |ps| && ps[i].head && ps[i].refCnt > 0 :: ps[i]
  }

  ghost predicate Covers(live: map<nat, Page>, i: nat, x: nat) {
    i in live && i <= x < i + Pow2(Order(live[i]))
  }

  /** Page `x` belongs to no allocated block. */
  ghost predicate Vacant(live: map<nat, Page>, x: nat) {
    forall i :: !Covers(live, i, x)
  }

  /** All of the `2^k` pages from `s` on exist and belong to no allocated block. */
  ghost predicate VacantRun(live: map<nat, Page>, n: nat, s: nat, k: nat) {
    Aligned(s, k) && s + Pow2(k) <= n && forall x: nat :: s <= x < s + Pow2(k) ==> Vacant(live, x)
  }

  lemma VacantIffOwnerFree(ps: seq<Page>, x: nat)
    requires Tiled(ps) && x < |ps|
    ensures Vacant(Live(ps), x) <==> ps[Owner(ps, x)].refCnt == 0
  {
    var o := Owner(ps, x);
    if ps[o].refCnt > 0 {
      assert Covers(Live(ps), o, x);
    } else if !Vacant(Live(ps), x) {
      var i :| Covers(Live(ps), i, x);
      OwnerUnique(ps, x, i);
    }
  }

  /** Allocated blocks never overlap. */
  lemma LiveDisjoint(ps: seq<Page>, i: nat, j: nat, x: nat)
    requires Tiled(ps) && Covers(Live(ps), i, x) && Covers(Live(ps), j, x)
    ensures i == j
  {
    if i != j { BlocksDisjoint(ps, i, j); }
  }

  /** A free block is a vacant run. */
  lemma FreeBlockIsVacant(ps: seq<Page>, i: nat, k: nat)
    requires Tiled(ps) && IsFree(ps, i, k)
    ensures VacantRun(Live(ps), |ps|, i, k)
  {
    assert BlockAt(ps, i);
    forall x: nat | i <= x < i + Pow2(k) ensures Vacant(Live(ps), x) {
      OwnerUnique(ps, x, i);
      VacantIffOwnerFree(ps, x);
    }
  }

  /** The `2^k` pages from `s` on lie inside one free block. */
  ghost predicate InFreeBlock(ps: seq<Page>, s: nat, k: nat)
    requires Tiled(ps) && s < |ps|
  {
    var o := Owner(ps, s);
    s + Pow2(k) <= End(ps, o) && k <= Order(ps[o]) && IsFree(ps, o, Order(ps[o]))
  }

  lemma VacantHalves(live: map<nat, Page>, n: nat, s: nat, k: nat)
    requires VacantRun(live, n, s, k + 1)
    ensures VacantRun(live, n, s, k) && VacantRun(live, n, s + Pow2(k), k)
  {
    AlignedHalves(s, k);
  }

  /** Coalescing is complete: every aligned vacant run lies inside a single free block. */
  lemma {:induction false} VacantRunInBlock(ps: seq<Page>, s: nat, k: nat)
    requires Tiled(ps) && Coalesced(ps) && k <= MAX_ORDER && VacantRun(Live(ps), |ps|, s, k)
    ensures InFreeBlock(ps, s, k)
    decreases k
  {
    hide Tiled, Coalesced, VacantRun, Owner, Order, Aligned, InFreeBlock;
    if k == 0 {
      VacantPage(ps, s);
    } else {
      RunShape(Live(ps), |ps|, s, k - 1);
      VacantHalves(Live(ps), |ps|, s, k - 1);
      VacantRunInBlock(ps, s, k - 1);
      VacantRunInBlock(ps, s + Pow2(k - 1), k - 1);
      HalvesShareBlock(ps, s, k - 1);
    }
  }

  lemma VacantPage(ps: seq<Page>, s: nat)
    requires Tiled(ps) && VacantRun(Live(ps), |ps|, s, 0)
    ensures s < |ps| && InFreeBlock(ps, s, 0)
  {
    assert Pow2(0) == 1;
    VacantIffOwnerFree(ps, s);
  }

  lemma RunShape(live: map<nat, Page>, n: nat, s: nat, k: nat)
    requires VacantRun(live, n, s, k + 1)
    ensures Aligned(s, k + 1) && s + Pow2(k + 1) <= n && s + Pow2(k) < n
  {
  }

  /** Two halves that each lie in a free block lie in one free block, or they would be free buddies. */
  lemma HalvesShareBlock(ps: seq<Page>, s: nat, k: nat)
    requires Tiled(ps) && Coalesced(ps) && k < MAX_ORDER && Aligned(s, k + 1) && s + Pow2(k + 1) <= |ps|
    requires InFreeBlock(ps, s, k) && InFreeBlock(ps, s + Pow2(k), k)
    ensures InFreeBlock(ps, s, k + 1)
  {
    hide Order, Aligned, Coalesced, BlockAt, Owner, Tiled;
    var t := s + Pow2(k);
    assert Pow2(k + 1) == 2 * Pow2(k);
    var o, o' := Owner(ps, s), Owner(ps, t);
    AlignedHalves(s, k);
    OneIsLarger(ps, s, k);
    HeadAligned(ps, o);
    HeadAligned(ps, o');
    if Order(ps[o]) > k {
      AlignedNested(s, k + 1, o, Order(ps[o]));
    } else {
      EnclosingHoldsBoth(s, k, o', Order(ps[o']), t);
      OwnerUnique(ps, s, o');
    }
  }

  lemma HeadAligned(ps: seq<Page>, i: nat)
    requires Tiled(ps) && i < |ps| && ps[i].head
    ensures Aligned(i, Order(ps[i])) && End(ps, i) <= |ps|
  {
    assert BlockAt(ps, i);
  }

  /** Of the blocks that hold the two halves one is larger than a half. */
  lemma OneIsLarger(ps: seq<Page>, s: nat, k: nat)
    requires Tiled(ps) && Coalesced(ps) && k < MAX_ORDER && Aligned(s, k + 1)
    requires Aligned(s, k) && s + Pow2(k + 1) <= |ps|
    requires s + Pow2(k) < |ps| && InFreeBlock(ps, s, k) && InFreeBlock(ps, s + Pow2(k), k)
    ensures Order(ps[Owner(ps, s)]) > k || Order(ps[Owner(ps, s + Pow2(k))]) > k
  {
    NotBothFree(ps, s, k);
    hide Tiled, Coalesced, Order;
  }

  /** The two halves of an aligned pair are not both free blocks. */
  lemma NotBothFree(ps: seq<Page>, s: nat, k: nat)
    requires Coalesced(ps) && k < MAX_ORDER && Aligned(s, k + 1) && Aligned(s, k)
    ensures !(IsFree(ps, s, k) && IsFree(ps, s + Pow2(k), k))
  {
    BuddyIsRightHalf(s, k);
  }

  lemma BuddyIsRightHalf(s: nat, k: nat)
    requires Aligned(s, k + 1) && Aligned(s, k)
    ensures Buddy(s, k) == s + Pow2(k)
  {
    BuddyHalves(s, k);
    var b := Buddy(s, k);
    if b < s {
      AlignedNested(s, k + 1, b, k + 1);
    }
  }

  /**
   The free blocks are a function of the live blocks alone: two allocators over the same
   pages with the same live blocks have the same free blocks, whatever their histories.
   */
  lemma FreeBlocksCanonical(g: Heap, h: Heap, i: nat, k: nat)
    requires Inv(g) && Inv(h) && |g.pages| == |h.pages| && Live(g.pages) == Live(h.pages)
    requires IsFree(g.pages, i, k)
    ensures IsFree(h.pages, i, k)
  {
    var ps, qs := g.pages, h.pages;
    assert BlockAt(ps, i);
    FreeBlockIsVacant(ps, i, k);
    VacantRunInBlock(qs, i, k);
    var o := Owner(qs, i);
    var k' := Order(qs[o]);
    assert BlockAt(qs, o);
    FreeBlockIsVacant(qs, o, k');
    VacantRunInBlock(ps, o, k');
    var p := Owner(ps, o);
    OwnerUnique(ps, i, p);
    OwnerUnique(ps, i, i);
    SameExtent(i, k, o, k');
  }

  lemma SameExtent(i: nat, k: nat, o: nat, k': nat)
    requires i == o && k <= k' && o + Pow2(k') <= i + Pow2(k)
    ensures k == k'
  {
    Pow2Monotone(k, k');
  }

  lemma HistoryIndependent(g: Heap, h: Heap)
    requires Inv(g) && Inv(h) && |g.pages| == |h.pages| && Live(g.pages) == Live(h.pages)
    ensures forall k, i: nat :: 0 <= k <= MAX_ORDER ==> (i in g.root[k] <==> i in h.root[k])
    ensures forall k :: 0 <= k <= MAX_ORDER ==> multiset(g.root[k]) == multiset(h.root[k])
  {
    forall k, i: nat | 0 <= k <= MAX_ORDER ensures i in g.root[k] <==> i in h.root[k] {
      if IsFree(g.pages, i, k) { FreeBlocksCanonical(g, h, i, k); }
      if IsFree(h.pages, i, k) { FreeBlocksCanonical(h, g, i, k); }
    }
    forall k | 0 <= k <= MAX_ORDER ensures multiset(g.root[k]) == multiset(h.root[k]) {
      NoDupMultiset(g.root[k], h.root[k]);
    }
  }

  // ------------------------------------------------------------ elementary moves

  ghost predicate IsLive(h: Heap, p: nat, k: nat) {
    p < |h.pages| && h.pages[p].head && h.pages[p].refCnt > 0 && Order(h.pages[p]) == k
  }

  /** A free block leaves its list and gets its first reference. */
  function Take(h: Heap, p: nat, k: nat): Heap
    requires p < |h.pages| && k < |h.root|
  {
    Heap(h.pages[p := h.pages[p].(refCnt := 1)], h.root[k := Remove(h.root[k], p)])
  }

  /** A live block of order `k + 1` keeps its lower half; the upper half becomes free. */
  function Split(h: Heap, p: nat, k: nat): Heap
    requires p + Pow2(k) < |h.pages| && k < |h.root|
  {
    var q := p + Pow2(k);
    Heap(h.pages[p := h.pages[p].(size := Bytes(k))][q := h.pages[q].(head := true, size := Bytes(k))],
         h.root[k := h.root[k] + [q]])
  }

  /** A live block absorbs its free buddy `b` of the same order `k`. */
  function Merge(h: Heap, p: nat, b: nat, k: nat): Heap
    requires p < |h.pages| && b < |h.pages| && k < |h.root|
  {
    var m := Min(p, b);
    var t := p + b - m;
    Heap(h.pages[t := h.pages[t].(head := false, refCnt := 0)][m := Page(true, Bytes(k + 1), h.pages[p].refCnt)],
         h.root[k := Remove(h.root[k], b)])
  }

  /** A live block gives up its last reference and joins the list of its order. */
  function Release(h: Heap, p: nat, k: nat): Heap
    requires p < |h.pages| && k < |h.root|
  {
    Heap(h.pages[p := h.pages[p].(refCnt := 0)], h.root[k := h.root[k] + [p]])
  }

  /** What distinguishes the exit branch of the coalescing loop from another round. */
  ghost predicate NoMerge(h: Heap, p: nat, k: nat)
    requires Aligned(p, k)
  {
    k == MAX_ORDER || !IsFree(h.pages, Buddy(p, k), k)
  }

  lemma TakeKeeps(h: Heap, p: nat, k: nat)
    requires Inv(h) && IsFree(h.pages, p, k)
    ensures k <= MAX_ORDER && Inv(Take(h, p, k)) && IsLive(Take(h, p, k), p, k)
    ensures Live(Take(h, p, k).pages) == Live(h.pages)[p := h.pages[p].(refCnt := 1)]
  {
    assert BlockAt(h.pages, p);
    var g := Take(h, p, k);
    RetaggedTiled(h.pages, p, 1);
    RemoveSpec(h.root[k], p);
    assert forall i: nat, j :: IsFree(g.pages, i, j) <==> IsFree(h.pages, i, j) && i != p;
  }

  /** Tiling does not depend on the reference count of a head. */
  lemma RetaggedTiled(ps: seq<Page>, p: nat, r: nat)
    requires Tiled(ps) && p < |ps| && ps[p].head
    ensures Tiled(ps[p := ps[p].(refCnt := r)])
  {
    var qs := ps[p := ps[p].(refCnt := r)];
    forall i | 0 <= i < |qs| && qs[i].head ensures BlockAt(qs, i) {
      assert BlockAt(ps, i);
    }
  }

  lemma ReleaseKeeps(h: Heap, p: nat, k: nat)
    requires Inv(h) && IsLive(h, p, k) && Aligned(p, k) && k <= MAX_ORDER && NoMerge(h, p, k)
    ensures Inv(Release(h, p, k))
    ensures Live(Release(h, p, k).pages) == Live(h.pages) - {p}
  {
    var g := Release(h, p, k);
    RetaggedTiled(h.pages, p, 0);
    AppendSpec(h.root[k], p);
    assert forall i: nat, j :: IsFree(g.pages, i, j) <==> IsFree(h.pages, i, j) || (i == p && j == k);
    forall i: nat, j: nat | j < MAX_ORDER && Aligned(i, j) && IsFree(g.pages, i, j)
      ensures !IsFree(g.pages, Buddy(i, j), j)
    {
      BuddyInvolution(i, j);
      BuddyHalves(i, j);
    }
  }

  /** A block survives any change that leaves its own pages and the head after it alone. */
  lemma BlockFrame(ps: seq<Page>, qs: seq<Page>, i: nat)
    requires |ps| == |qs| && i < |ps| && BlockAt(ps, i) && qs[i] == ps[i]
    requires forall j :: i < j < End(ps, i) ==> qs[j].head == ps[j].head
    requires End(ps, i) < |ps| ==> qs[End(ps, i)].head
    ensures BlockAt(qs, i)
  {
  }

  lemma SplitTiled(ps: seq<Page>, p: nat, k: nat)
    requires Tiled(ps) && p < |ps| && ps[p].head && Order(ps[p]) == k + 1
    ensures p + Pow2(k) < |ps| && k < MAX_ORDER && !ps[p + Pow2(k)].head
    ensures Aligned(p, k) && Aligned(p + Pow2(k), k)
    ensures Tiled(ps[p := ps[p].(size := Bytes(k))][p + Pow2(k) := ps[p + Pow2(k)].(head := true, size := Bytes(k))])
  {
    hide Order, Bytes, Aligned, BlockAt, End, Pow2;
    SplitShape(ps, p, k);
    var q := p + Pow2(k);
    var qs := ps[p := ps[p].(size := Bytes(k))][q := ps[q].(head := true, size := Bytes(k))];
    SplitPair(ps, qs, p, q, k);
    forall i | 0 <= i < |qs| && qs[i].head && i != p && i != q ensures BlockAt(qs, i) {
      assert BlockAt(ps, i);
      SplitOther(ps, qs, p, q, i);
    }
  }

  lemma SplitShape(ps: seq<Page>, p: nat, k: nat)
    requires Tiled(ps) && p < |ps| && ps[p].head && Order(ps[p]) == k + 1
    ensures var q := p + Pow2(k);
      q < |ps| && k < MAX_ORDER && !ps[q].head && Aligned(p, k) && Aligned(q, k) && p < q < End(ps, p) && BlockAt(ps, p)
  {
    assert BlockAt(ps, p);
    AlignedHalves(p, k);
    hide Tiled, Order;
  }

  /** Splitting the block at `p` at `q` leaves the block at `i` as it is. */
  lemma SplitOther(ps: seq<Page>, qs: seq<Page>, p: nat, q: nat, i: nat)
    requires Tiled(ps) && |qs| == |ps| && p < q < |ps| && ps[p].head && q < End(ps, p) && qs[p].head
    requires forall j :: 0 <= j < |ps| && j != p && j != q ==> qs[j] == ps[j]
    requires i < |ps| && ps[i].head && i != p && i != q && BlockAt(ps, i)
    ensures BlockAt(qs, i)
  {
    BlocksDisjoint(ps, i, p);
    assert BlockAt(ps, p);
    BlockFrame(ps, qs, i);
  }

  lemma SplitPair(ps: seq<Page>, qs: seq<Page>, p: nat, q: nat, k: nat)
    requires |qs| == |ps| && p < q < |ps| && q == p + Pow2(k) && BlockAt(ps, p) && Order(ps[p]) == k + 1
    requires Aligned(p, k) && Aligned(q, k) && qs[p].size == Bytes(k) && qs[q].size == Bytes(k) && qs[q].head
    requires forall j :: 0 <= j < |ps| && j != p && j != q ==> qs[j] == ps[j]
    ensures BlockAt(qs, p) && BlockAt(qs, q)
  {
    hide Order, Bytes, Aligned;
    OrderOfBytes(qs[p], k);
    OrderOfBytes(qs[q], k);
    assert Pow2(k + 1) == 2 * Pow2(k);
  }

  lemma SplitKeeps(h: Heap, p: nat, k: nat)
    requires Inv(h) && IsLive(h, p, k + 1)
    ensures p + Pow2(k) < |h.pages| && k < MAX_ORDER && !h.pages[p + Pow2(k)].head
    ensures var g := Split(h, p, k);
      && Inv(g) && IsLive(g, p, k)
      && Live(g.pages) == Live(h.pages)[p := h.pages[p].(size := Bytes(k))]
  {
    SplitTiled(h.pages, p, k);
    var g := Split(h, p, k);
    OrderOfBytes(g.pages[p], k);
    BuddyIsRightHalf(p, k) by { assert BlockAt(h.pages, p); }
    assert h.pages[p + Pow2(k)].refCnt == 0;
    hide Order, Bytes, Pow2, Tiled, Listed, Coalesced, Aligned;
    SplitLists(h, p, k);
  }

  lemma SplitLists(h: Heap, p: nat, k: nat)
    requires Inv(h) && IsLive(h, p, k + 1) && p + Pow2(k) < |h.pages| && k < MAX_ORDER
    requires !h.pages[p + Pow2(k)].head && h.pages[p + Pow2(k)].refCnt == 0
    requires Aligned(p, k) && Buddy(p, k) == p + Pow2(k)
    ensures var g := Split(h, p, k); Listed(g) && Coalesced(g.pages)
  {
    var g := Split(h, p, k);
    var q := p + Pow2(k);
    OrderOfBytes(g.pages[p], k);
    OrderOfBytes(g.pages[q], k);
    AppendSpec(h.root[k], q);
    assert forall i: nat, j :: IsFree(g.pages, i, j) <==> IsFree(h.pages, i, j) || (i == q && j == k);
    BuddyInvolution(p, k);
    forall i: nat, j: nat | j < MAX_ORDER && Aligned(i, j) && IsFree(g.pages, i, j)
      ensures !IsFree(g.pages, Buddy(i, j), j)
    {
      BuddyInvolution(i, j);
    }
  }

  /** Joining two adjacent blocks of order `k` whose union is aligned. */
  lemma MergeTiled(ps: seq<Page>, m: nat, t: nat, k: nat, r: nat)
    requires Tiled(ps) && m < t < |ps| && t == m + Pow2(k) && k < MAX_ORDER && Aligned(m, k + 1)
    requires ps[m].head && ps[t].head && Order(ps[m]) == k && Order(ps[t]) == k
    ensures Tiled(ps[t := ps[t].(head := false, refCnt := 0)][m := Page(true, Bytes(k + 1), r)])
  {
    hide BlockAt, Order, Bytes, Aligned, Pow2;
    var qs := ps[t := ps[t].(head := false, refCnt := 0)][m := Page(true, Bytes(k + 1), r)];
    assert BlockAt(ps, m) && BlockAt(ps, t);
    MergedPair(ps, qs, m, t, k);
    forall i | 0 <= i < |qs| && qs[i].head && i != m ensures BlockAt(qs, i) {
      MergeOthers(ps, qs, m, t, i);
    }
  }

  lemma MergedPair(ps: seq<Page>, qs: seq<Page>, m: nat, t: nat, k: nat)
    requires |qs| == |ps| && m < t < |ps| && t == m + Pow2(k) && k < MAX_ORDER && Aligned(m, k + 1)
    requires BlockAt(ps, m) && BlockAt(ps, t) && Order(ps[m]) == k && Order(ps[t]) == k
    requires qs[m].size == Bytes(k + 1) && !qs[t].head
    requires forall j :: 0 <= j < |ps| && j != m && j != t ==> qs[j] == ps[j]
    ensures BlockAt(qs, m)
  {
    hide Order, Bytes, Aligned;
    OrderOfBytes(qs[m], k + 1);
    assert Pow2(k + 1) == 2 * Pow2(k);
    forall j | m < j < m + Pow2(k + 1) ensures !qs[j].head {
      if j != t { assert qs[j] == ps[j]; }
    }
  }

  lemma MergeOthers(ps: seq<Page>, qs: seq<Page>, m: nat, t: nat, i: nat)
    requires Tiled(ps) && |qs| == |ps| && m < t < |ps| && i < |ps| && i != m && i != t
    requires ps[m].head && ps[t].head && ps[i].head && qs[m].head && End(ps, m) == t
    requires forall j :: 0 <= j < |ps| && j != m && j != t ==> qs[j] == ps[j]
    ensures BlockAt(qs, i)
  {
    assert BlockAt(ps, i);
    BlocksDisjoint(ps, i, m);
    BlocksDisjoint(ps, i, t);
    BlockFrame(ps, qs, i);
  }

  lemma MergeLists(h: Heap, p: nat, b: nat, k: nat)
    requires Inv(h) && IsLive(h, p, k) && k < MAX_ORDER && IsFree(h.pages, b, k)
    ensures var g := Merge(h, p, b, k); Listed(g) && Coalesced(g.pages)
  {
    var g := Merge(h, p, b, k);
    RemoveSpec(h.root[k], b);
    assert forall i: nat, j :: IsFree(g.pages, i, j) <==> IsFree(h.pages, i, j) && i != b;
  }

  lemma MergeLive(h: Heap, p: nat, b: nat, k: nat)
    requires |h.root| == MAX_ORDER + 1 && IsLive(h, p, k) && k < MAX_ORDER && IsFree(h.pages, b, k)
    ensures var g := Merge(h, p, b, k); var m := Min(p, b);
      && IsLive(g, m, k + 1)
      && Live(g.pages) == (Live(h.pages) - {p})[m := Page(true, Bytes(k + 1), h.pages[p].refCnt)]
  {
    OrderOfBytes(Merge(h, p, b, k).pages[Min(p, b)], k + 1);
  }

  lemma ElevenRoots(h: Heap)
    requires Inv(h)
    ensures |h.root| == MAX_ORDER + 1
  {
  }

  lemma MergeKeeps(h: Heap, p: nat, b: nat, k: nat)
    requires Inv(h) && IsLive(h, p, k) && k < MAX_ORDER
    requires Aligned(p, k) && b == Buddy(p, k) && IsFree(h.pages, b, k)
    ensures var g := Merge(h, p, b, k); var m := Min(p, b);
      && Inv(g) && IsLive(g, m, k + 1)
      && Live(g.pages) == (Live(h.pages) - {p})[m := Page(true, Bytes(k + 1), h.pages[p].refCnt)]
  {
    hide Tiled, Listed, Coalesced, Order, Buddy, Aligned, Live;
    BuddyHalves(p, k);
    var m := Min(p, b);
    assert |h.root| == MAX_ORDER + 1 by { ElevenRoots(h); }
    MergeTiled(h.pages, m, p + b - m, k, h.pages[p].refCnt);
    MergeLists(h, p, b, k);
    MergeLive(h, p, b, k);
  }

  // ------------------------------------------------------------------ set-up

  const BLANK := Page(false, 0, 0)

  function Blanks(n: nat): (s: seq<Page>)
    ensures |s| == n && forall i :: 0 <= i < n ==> s[i] == BLANK
  {
    seq(n, _ => BLANK)
  }

  /** `page_setup` appends one free block of order `k` behind the pages set up so far. */
  function Grow(h: Heap, k: nat): Heap
    requires k < |h.root|
  {
    Heap(h.pages + [Page(true, Bytes(k), 0)] + Blanks(Pow2(k) - 1), h.root[k := h.root[k] + [|h.pages|]])
  }

  ghost predicate AllFree(h: Heap) {
    forall i :: 0 <= i < |h.pages| ==> h.pages[i].refCnt == 0
  }

  lemma GrowTiled(ps: seq<Page>, k: nat)
    requires Tiled(ps) && k <= MAX_ORDER && Aligned(|ps|, k)
    ensures Tiled(ps + [Page(true, Bytes(k), 0)] + Blanks(Pow2(k) - 1))
  {
    hide BlockAt, Order, Bytes, Aligned, Pow2;
    var n := |ps|;
    var qs := ps + [Page(true, Bytes(k), 0)] + Blanks(Pow2(k) - 1);
    LastBlock(qs, n, k);
    forall i | 0 <= i < |qs| && qs[i].head && i != n ensures BlockAt(qs, i) {
      GrowOthers(ps, qs, i);
    }
  }

  lemma LastBlock(qs: seq<Page>, n: nat, k: nat)
    requires n < |qs| == n + Pow2(k) && qs[n] == Page(true, Bytes(k), 0) && k <= MAX_ORDER && Aligned(n, k)
    requires forall j :: n < j < |qs| ==> !qs[j].head
    ensures BlockAt(qs, n)
  {
    hide Order, Bytes, Aligned;
    OrderOfBytes(qs[n], k);
  }

  lemma GrowOthers(ps: seq<Page>, qs: seq<Page>, i: nat)
    requires Tiled(ps) && |ps| < |qs| && qs[|ps|].head && i < |ps| && ps[i].head
    requires forall j :: 0 <= j < |ps| ==> qs[j] == ps[j]
    ensures BlockAt(qs, i)
  {
    assert BlockAt(ps, i);
  }

  /** A block appended at an aligned end keeps the invariant, unless it completes a pair of buddies. */
  lemma GrowKeeps(h: Heap, k: nat)
    requires Inv(h) && AllFree(h) && k <= MAX_ORDER && Aligned(|h.pages|, k)
    requires k == MAX_ORDER || Aligned(|h.pages|, k + 1)
    ensures Inv(Grow(h, k)) && AllFree(Grow(h, k)) && Aligned(|Grow(h, k).pages|, k)
  {
    hide Order, Aligned, Pow2, Tiled;
    var n := |h.pages|;
    var g := Grow(h, k);
    GrowTiled(h.pages, k);
    OrderOfBytes(g.pages[n], k);
    AppendSpec(h.root[k], n);
    assert forall i: nat, j :: IsFree(g.pages, i, j) <==> IsFree(h.pages, i, j) || (i == n && j == k);
    AlignedNext(n, k);
    if k < MAX_ORDER { BuddyIsRightHalf(n, k); }
    forall i: nat, j: nat | j < MAX_ORDER && Aligned(i, j) && IsFree(g.pages, i, j)
      ensures !IsFree(g.pages, Buddy(i, j), j)
    {
      BuddyInvolution(i, j);
    }
  }

  lemma {:induction false} AlignedNext(n: nat, k: nat)
    requires Aligned(n, k)
    ensures Aligned(n + Pow2(k), k)
  {
    if k > 0 {
      AlignedNext(n / 2, k - 1);
      assert (n + Pow2(k)) / 2 == n / 2 + Pow2(k - 1);
    }
  }

  /** Whatever was allocated and freed on the way, freeing everything restores the initial lists. */
  lemma FreeAllRestores(fresh0: Heap, h: Heap)
    requires Inv(fresh0) && AllFree(fresh0) && Inv(h) && AllFree(h) && |h.pages| == |fresh0.pages|
    ensures forall k :: 0 <= k <= MAX_ORDER ==> multiset(h.root[k]) == multiset(fresh0.root[k])
  {
    assert Live(h.pages) == map[] == Live(fresh0.pages);
    HistoryIndependent(fresh0, h);
  }
}
