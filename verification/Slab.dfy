/**
 The slab allocator (kernel/mm/slab.c): for each chunk size a list of pages that still have
 free chunks, and one list of full pages. `slab_alloc` uses ten sizes with a shared full
 list; a `slabCache` is the case of one size.
 */
module Slab {
  import opened Platform
  import opened Seqs
  import opened SlabPage

  /** The lists, the pages with their free chains, and the chunks handed out from each page. */
  datatype State = State(
    slab: seq<seq<nat>>, full: seq<nat>, info: map<nat, Info>, links: map<nat, nat>,
    free: map<nat, seq<nat>>, out: map<nat, set<nat>>)

  ghost predicate PageIn(s: State, sizes: seq<nat>, p: nat) {
    && p in s.info && p in s.free && p in s.out && p % PAGE_SIZE == 0
    && s.info[p].cls < |sizes| && s.info[p].size == sizes[s.info[p].cls]
    && PageOk(p, s.info[p], s.links, s.free[p], s.out[p])
  }

  ghost predicate Pages(s: State, sizes: seq<nat>) {
    s.info.Keys == s.free.Keys == s.out.Keys && forall p :: p in s.info ==> PageIn(s, sizes, p)
  }

  /** Page `p` belongs on partial list `c`. */
  ghost predicate Partial(s: State, p: nat, c: nat) {
    p in s.info && p in s.free && s.info[p].cls == c && s.free[p] != []
  }

  ghost predicate Full(s: State, p: nat) { p in s.info && p in s.free && s.free[p] == [] }

  ghost predicate ListOk(s: State, c: nat)
    requires c < |s.slab|
  {
    NoDup(s.slab[c]) && forall p :: p in s.slab[c] <==> Partial(s, p, c)
  }

  /** A page is on the list of its size exactly when it has a free chunk, and else on the full list. */
  ghost predicate Lists(s: State) {
    && (forall c: nat :: c < |s.slab| ==> ListOk(s, c))
    && NoDup(s.full) && forall p :: p in s.full <==> Full(s, p)
  }

  ghost predicate Inv(s: State, sizes: seq<nat>) {
    && |s.slab| == |sizes| && (forall c :: 0 <= c < |sizes| ==> LINK <= sizes[c] <= PAGE_SIZE)
    && Pages(s, sizes) && Lists(s)
  }

  ghost function Outstanding(s: State): set<Extent> {
    set p, a | p in s.info && p in s.out && a in s.out[p] :: Extent(a, s.info[p].size)
  }

  // ------------------------------------------------------------------- steps

  /** `__slab_alloc` on page `p`. */
  ghost function Take(s: State, p: nat): State
    requires p in s.info && p in s.free && p in s.out && s.free[p] != []
    requires s.info[p].cls < |s.slab| && s.info[p].chunk in s.links
  {
    var i := s.info[p];
    var rest := s.links[i.chunk];
    State(
      if rest == 0 then s.slab[i.cls := Remove(s.slab[i.cls], p)] else s.slab,
      if rest == 0 then [p] + s.full else s.full,
      s.info[p := i.(nAllocated := i.nAllocated + 1, chunk := rest)],
      s.links, s.free[p := s.free[p][1..]], s.out[p := s.out[p] + {i.chunk}])
  }

  /** `__slab_free` of chunk `a` of page `p`. */
  ghost function Give(s: State, p: nat, a: nat): State
    requires p in s.info && p in s.free && p in s.out && s.info[p].cls < |s.slab| && s.info[p].nAllocated > 0
  {
    var i := s.info[p];
    State(
      if i.chunk == 0 then s.slab[i.cls := [p] + s.slab[i.cls]] else s.slab,
      if i.chunk == 0 then Remove(s.full, p) else s.full,
      s.info[p := i.(nAllocated := i.nAllocated - 1, chunk := a)],
      s.links[a := i.chunk], s.free[p := [a] + s.free[p]], s.out[p := s.out[p] - {a}])
  }

  /** `add_slab`: page `p` with all chunks free, linked in `links`. */
  ghost function Add(s: State, p: nat, c: nat, size: nat, links: map<nat, nat>): State
    requires c < |s.slab| && size >= 1
  {
    State(s.slab[c := [p] + s.slab[c]], s.full, s.info[p := Info(c, size, 0, p)], links,
      s.free[p := SlotsFrom(p, size, 0, PAGE_SIZE / size)], s.out[p := {}])
  }

  /** The free chain is empty exactly when the chunk pointer is NULL. */
  lemma EmptyIffNull(s: State, sizes: seq<nat>, p: nat)
    requires PageIn(s, sizes, p)
    ensures s.free[p] == [] <==> s.info[p].chunk == 0
    ensures s.free[p] != [] ==> s.info[p].chunk in s.links && (s.free[p][1..] == [] <==> s.links[s.info[p].chunk] == 0)
  {
    if s.free[p] != [] { assert Chain(s.links, s.links[s.info[p].chunk], s.free[p][1..]); }
  }

  /** Chunk addresses lie in their own page. */
  lemma ChunkInPage(s: State, sizes: seq<nat>, p: nat, a: nat)
    requires PageIn(s, sizes, p) && (a in s.free[p] || a in s.out[p])
    ensures p <= a && a + s.info[p].size <= p + PAGE_SIZE && s.info[p].size >= 1
    ensures a - a % PAGE_SIZE == p
  {
    var size := s.info[p].size;
    assert IsSlot(p, size, a);
    var k: nat :| k < PAGE_SIZE / size && Slot(p, size, k) == a;
    SlotInside(p, size, k);
  }

  /** Chunks that are handed out do not overlap. */
  lemma OutDisjoint(s: State, sizes: seq<nat>, e: Extent, f: Extent)
    requires Inv(s, sizes) && e in Outstanding(s) && f in Outstanding(s) && e != f
    ensures e.at + e.size <= f.at || f.at + f.size <= e.at
  {
    var p, a :| p in s.info && a in s.out[p] && e == Extent(a, s.info[p].size);
    var q, b :| q in s.info && b in s.out[q] && f == Extent(b, s.info[q].size);
    if a == b {
      SamePage(s, sizes, p, q, a);
    } else {
      ChunksApart(s, sizes, p, a, q, b);
    }
  }

  /** A chunk belongs to one page only. */
  lemma SamePage(s: State, sizes: seq<nat>, p: nat, q: nat, a: nat)
    requires Pages(s, sizes) && p in s.info && q in s.info && a in s.out[p] && a in s.out[q]
    ensures p == q
  {
    assert PageIn(s, sizes, p) && PageIn(s, sizes, q);
    ChunkInPage(s, sizes, p, a);
    ChunkInPage(s, sizes, q, a);
  }

  lemma ChunksApart(s: State, sizes: seq<nat>, p: nat, a: nat, q: nat, b: nat)
    requires Pages(s, sizes) && p in s.info && a in s.out[p] && q in s.info && b in s.out[q] && a != b
    ensures a + s.info[p].size <= b || b + s.info[q].size <= a
  {
    assert PageIn(s, sizes, p) && PageIn(s, sizes, q);
    ChunkInPage(s, sizes, p, a);
    ChunkInPage(s, sizes, q, b);
    assert IsSlot(p, s.info[p].size, a) && IsSlot(q, s.info[q].size, b);
    hide Pages, PageIn;
    if p == q {
      SlotsOfPage(p, s.info[p].size, a, b);
    } else if p < q {
      PagesApart(p, q);
    } else {
      PagesApart(q, p);
    }
  }

  lemma SlotsOfPage(p: nat, size: nat, a: nat, b: nat)
    requires size >= 1 && IsSlot(p, size, a) && IsSlot(p, size, b) && a != b
    ensures a + size <= b || b + size <= a
  {
    var j: nat :| j < PAGE_SIZE / size && Slot(p, size, j) == a;
    var k: nat :| k < PAGE_SIZE / size && Slot(p, size, k) == b;
    if j < k { SlotsApart(p, size, j, k); } else { SlotsApart(p, size, k, j); }
  }

  lemma PagesApart(p: nat, q: nat)
    requires p % PAGE_SIZE == 0 && q % PAGE_SIZE == 0 && p < q
    ensures p + PAGE_SIZE <= q
  {
  }

  // ------------------------------------------------------- steps keep the state

  /** A change of one page and of words in it leaves the other pages alone. */
  lemma OtherPage(s: State, t: State, sizes: seq<nat>, p: nat, q: nat)
    requires PageIn(s, sizes, q) && q != p && p % PAGE_SIZE == 0
    requires q in t.info && q in t.free && q in t.out
    requires t.info[q] == s.info[q] && t.free[q] == s.free[q] && t.out[q] == s.out[q]
    requires SameOutside(s.links, t.links, p)
    ensures PageIn(t, sizes, q)
  {
    forall a | a in s.free[q] ensures a < p || a >= p + PAGE_SIZE {
      ChunkInPage(s, sizes, q, a);
      if p < q { PagesApart(p, q); } else { PagesApart(q, p); }
    }
    ChainFrame(s.links, t.links, s.info[q].chunk, s.free[q]);
  }

  /** One page was changed or added. */
  lemma PagesUpdate(s: State, t: State, sizes: seq<nat>, p: nat)
    requires Pages(s, sizes) && PageIn(t, sizes, p)
    requires t.info == s.info[p := t.info[p]] && t.free == s.free[p := t.free[p]] && t.out == s.out[p := t.out[p]]
    requires SameOutside(s.links, t.links, p)
    ensures Pages(t, sizes)
  {
    forall q | q in t.info ensures PageIn(t, sizes, q) {
      if q != p {
        assert PageIn(s, sizes, q);
        hide PageIn, SameOutside;
        OtherPage(s, t, sizes, p, q);
      }
    }
  }

  lemma TakePages(s: State, sizes: seq<nat>, p: nat)
    requires Pages(s, sizes) && p in s.info && s.free[p] != [] && |s.slab| == |sizes|
    ensures p in s.free && p in s.out && s.info[p].cls < |s.slab| && s.info[p].chunk in s.links
    ensures Pages(Take(s, p), sizes)
  {
    assert PageIn(s, sizes, p);
    EmptyIffNull(s, sizes, p);
    TakeKeeps(p, s.info[p], s.links, s.free[p], s.out[p]);
    hide PageOk, Pages;
    assert PageIn(Take(s, p), sizes, p);
    PagesUpdate(s, Take(s, p), sizes, p);
  }

  lemma GivePages(s: State, sizes: seq<nat>, p: nat, a: nat)
    requires Pages(s, sizes) && p in s.info && p in s.out && a in s.out[p] && |s.slab| == |sizes|
    ensures p in s.free && s.info[p].cls < |s.slab| && s.info[p].nAllocated > 0 && a - a % PAGE_SIZE == p
    ensures Pages(Give(s, p, a), sizes)
  {
    assert PageIn(s, sizes, p);
    ChunkInPage(s, sizes, p, a);
    NonNull(p, s.info[p].size, s.free[p], s.out[p]);
    GiveKeeps(p, s.info[p], s.links, s.free[p], s.out[p], a);
    var t := Give(s, p, a);
    hide PageOk, Pages, Split, Chain;
    assert PageIn(t, sizes, p);
    assert t.info == s.info[p := t.info[p]] && t.free == s.free[p := t.free[p]] && t.out == s.out[p := t.out[p]];
    assert SameOutside(s.links, t.links, p);
    hide *;
    PagesUpdate(s, t, sizes, p);
  }

  lemma NonNull(page: nat, size: nat, free: seq<nat>, out: set<nat>)
    requires Split(page, size, free, out)
    ensures 0 !in out
  {
    if 0 in out {
      var k: nat :| k < PAGE_SIZE / size && Slot(page, size, k) == 0;
      SlotInside(page, size, k);
    }
  }

  lemma AddPages(s: State, sizes: seq<nat>, p: nat, c: nat, links: map<nat, nat>)
    requires Pages(s, sizes) && c < |s.slab| == |sizes| && 1 <= sizes[c] <= PAGE_SIZE
    requires p !in s.info && p > 0 && p % PAGE_SIZE == 0
    requires Chain(links, p, SlotsFrom(p, sizes[c], 0, PAGE_SIZE / sizes[c]))
    requires SameOutside(s.links, links, p)
    ensures Pages(Add(s, p, c, sizes[c], links), sizes)
  {
    FreshPage(p, sizes[c]);
    hide Pages, Split, Chain, SlotsFrom;
    assert PageIn(Add(s, p, c, sizes[c], links), sizes, p);
    PagesUpdate(s, Add(s, p, c, sizes[c], links), sizes, p);
  }

  // ------------------------------------------------------------------- lists

  /** Page `p` moved from list `c` to the full list. */
  lemma TakeLists(s: State, sizes: seq<nat>, p: nat)
    requires Inv(s, sizes) && p in s.info && s.free[p] != []
    requires p in s.out && s.info[p].cls < |s.slab| && s.info[p].chunk in s.links
    ensures Lists(Take(s, p))
  {
    hide PageIn, ListOk;
    var t := Take(s, p);
    assert PageIn(s, sizes, p);
    EmptyIffNull(s, sizes, p);
    forall d: nat | d < |t.slab| ensures ListOk(t, d) {
      assert ListOk(s, d);
      TakeList(s, p, d);
    }
    TakeFull(s, p);
  }

  lemma TakeList(s: State, p: nat, d: nat)
    requires p in s.info && p in s.free && p in s.out && s.free[p] != [] && s.info[p].cls < |s.slab|
    requires d < |s.slab| && ListOk(s, d) && s.info[p].chunk in s.links
    requires s.free[p][1..] == [] <==> s.links[s.info[p].chunk] == 0
    ensures ListOk(Take(s, p), d)
  {
    hide Remove, NoDup;
    var c, t := s.info[p].cls, Take(s, p);
    if c == d { RemoveSpec(s.slab[c], p); }
    forall q ensures q in t.slab[d] <==> Partial(t, q, d) {
      assert q in s.slab[d] <==> Partial(s, q, d);
    }
  }

  lemma TakeFull(s: State, p: nat)
    requires p in s.info && p in s.free && p in s.out && s.free[p] != [] && s.info[p].cls < |s.slab|
    requires s.info[p].chunk in s.links && (s.free[p][1..] == [] <==> s.links[s.info[p].chunk] == 0)
    requires NoDup(s.full) && forall q :: q in s.full <==> Full(s, q)
    ensures var t := Take(s, p); NoDup(t.full) && forall q :: q in t.full <==> Full(t, q)
  {
    hide Remove, NoDup;
    var t := Take(s, p);
    PrependNoDup(s.full, p);
    forall q ensures q in t.full <==> Full(t, q) {
      assert q in s.full <==> Full(s, q);
    }
  }

  lemma PrependNoDup(s: seq<nat>, x: nat)
    requires NoDup(s)
    ensures x !in s ==> NoDup([x] + s)
  {
  }

  lemma GiveLists(s: State, sizes: seq<nat>, p: nat, a: nat)
    requires Inv(s, sizes) && p in s.info && p in s.out && p in s.free
    requires s.info[p].cls < |s.slab| && s.info[p].nAllocated > 0
    ensures Lists(Give(s, p, a))
  {
    hide PageIn, ListOk;
    var t := Give(s, p, a);
    assert PageIn(s, sizes, p);
    EmptyIffNull(s, sizes, p);
    forall d: nat | d < |t.slab| ensures ListOk(t, d) {
      assert ListOk(s, d);
      GiveList(s, p, a, d);
    }
    GiveFull(s, p, a);
  }

  lemma GiveList(s: State, p: nat, a: nat, d: nat)
    requires p in s.info && p in s.free && p in s.out && s.info[p].cls < |s.slab| && s.info[p].nAllocated > 0
    requires d < |s.slab| && ListOk(s, d) && (s.free[p] == [] <==> s.info[p].chunk == 0)
    ensures ListOk(Give(s, p, a), d)
  {
    hide Remove, NoDup;
    var t := Give(s, p, a);
    PrependNoDup(s.slab[d], p);
    forall q ensures q in t.slab[d] <==> Partial(t, q, d) {
      assert q in s.slab[d] <==> Partial(s, q, d);
    }
  }

  lemma GiveFull(s: State, p: nat, a: nat)
    requires p in s.info && p in s.free && p in s.out && s.info[p].cls < |s.slab| && s.info[p].nAllocated > 0
    requires NoDup(s.full) && (s.free[p] == [] <==> s.info[p].chunk == 0) && forall q :: q in s.full <==> Full(s, q)
    ensures var t := Give(s, p, a); NoDup(t.full) && forall q :: q in t.full <==> Full(t, q)
  {
    hide Remove, NoDup;
    var t := Give(s, p, a);
    RemoveSpec(s.full, p);
    forall q ensures q in t.full <==> Full(t, q) {
      assert q in s.full <==> Full(s, q);
    }
  }

  lemma AddLists(s: State, sizes: seq<nat>, p: nat, c: nat, links: map<nat, nat>)
    requires Inv(s, sizes) && c < |s.slab| && p !in s.info
    ensures Lists(Add(s, p, c, sizes[c], links))
  {
    var t := Add(s, p, c, sizes[c], links);
    SlotsFromAre(p, sizes[c], 0, PAGE_SIZE / sizes[c]);
    PrependNoDup(s.slab[c], p) by { assert ListOk(s, c); }
    hide Pages, PageIn, NoDup, SlotsFrom;
    forall d: nat | d < |t.slab| ensures ListOk(t, d) {
      assert ListOk(s, d);
      forall q ensures q in t.slab[d] <==> Partial(t, q, d) {
        assert q in s.slab[d] <==> Partial(s, q, d);
      }
    }
    forall q ensures q in t.full <==> Full(t, q) {
      assert q in s.full <==> Full(s, q);
    }
  }

  // ------------------------------------------------------------- outstanding

  lemma TakeOut(s: State, sizes: seq<nat>, p: nat)
    requires Pages(s, sizes) && p in s.info && s.free[p] != [] && |s.slab| == |sizes|
    ensures p in s.free && p in s.out && s.info[p].cls < |s.slab| && s.info[p].chunk in s.links
    ensures var e := Extent(s.info[p].chunk, s.info[p].size);
      e !in Outstanding(s) && Outstanding(Take(s, p)) == Outstanding(s) + {e}
  {
    hide PageIn, Outstanding;
    FirstChunk(s, sizes, p);
    var a := s.info[p].chunk;
    forall q | q in s.info ensures a !in s.out[q] {
      ChunkFresh(s, sizes, p, q, a);
    }
    OutAdded(s, Take(s, p), p, a);
  }

  /** The first free chunk of a page. */
  lemma FirstChunk(s: State, sizes: seq<nat>, p: nat)
    requires Pages(s, sizes) && p in s.info && s.free[p] != [] && |s.slab| == |sizes|
    ensures p in s.free && p in s.out && s.info[p].cls < |s.slab| && s.info[p].chunk in s.links
    ensures s.info[p].chunk in s.free[p] && s.info[p].chunk !in s.out[p]
  {
    hide Split, Chain;
    assert PageIn(s, sizes, p);
    EmptyIffNull(s, sizes, p);
    TakeKeeps(p, s.info[p], s.links, s.free[p], s.out[p]);
  }

  /** A free chunk is handed out from no page. */
  lemma ChunkFresh(s: State, sizes: seq<nat>, p: nat, q: nat, a: nat)
    requires Pages(s, sizes) && p in s.info && q in s.info && a in s.free[p] && a !in s.out[p]
    ensures a !in s.out[q]
  {
    hide PageOk;
    assert PageIn(s, sizes, p) && PageIn(s, sizes, q);
    ChunkInPage(s, sizes, p, a);
    if a in s.out[q] { ChunkInPage(s, sizes, q, a); }
  }

  lemma OutAdded(s: State, t: State, p: nat, a: nat)
    requires s.info.Keys == s.out.Keys == t.info.Keys == t.out.Keys && p in s.info
    requires forall q :: q in s.info ==> t.info[q].size == s.info[q].size
    requires t.out == s.out[p := s.out[p] + {a}] && forall q :: q in s.info ==> a !in s.out[q]
    ensures var e := Extent(a, s.info[p].size); e !in Outstanding(s) && Outstanding(t) == Outstanding(s) + {e}
  {
    var e := Extent(a, s.info[p].size);
    forall f ensures f in Outstanding(t) <==> f in Outstanding(s) + {e} {
      if f in Outstanding(s) {
        var q, b :| q in s.info && b in s.out[q] && f == Extent(b, s.info[q].size);
        assert b in t.out[q];
      }
      assert a in t.out[p];
    }
  }

  lemma GiveOut(s: State, sizes: seq<nat>, p: nat, a: nat)
    requires Pages(s, sizes) && p in s.info && p in s.out && a in s.out[p] && |s.slab| == |sizes|
    ensures p in s.free && s.info[p].cls < |s.slab| && s.info[p].nAllocated > 0
    ensures Outstanding(Give(s, p, a)) == Outstanding(s) - {Extent(a, s.info[p].size)}
  {
    hide PageIn, Outstanding;
    GivePages(s, sizes, p, a);
    forall q | q in s.info && a in s.out[q] ensures q == p {
      SamePage(s, sizes, p, q, a);
    }
    OutRemoved(s, Give(s, p, a), p, a);
  }

  lemma OutRemoved(s: State, t: State, p: nat, a: nat)
    requires s.info.Keys == s.out.Keys == t.info.Keys == t.out.Keys && p in s.info
    requires forall q :: q in s.info ==> t.info[q].size == s.info[q].size
    requires t.out == s.out[p := s.out[p] - {a}] && a in s.out[p] && forall q :: q in s.info && a in s.out[q] ==> q == p
    ensures Outstanding(t) == Outstanding(s) - {Extent(a, s.info[p].size)}
  {
    var e := Extent(a, s.info[p].size);
    forall f ensures f in Outstanding(t) <==> f in Outstanding(s) - {e} {
      if f in Outstanding(s) && f != e {
        var q, b :| q in s.info && b in s.out[q] && f == Extent(b, s.info[q].size);
        assert b in t.out[q];
      }
      if f in Outstanding(t) {
        var q, b :| q in t.info && b in t.out[q] && f == Extent(b, t.info[q].size);
        assert b in s.out[q];
      }
    }
  }

  lemma AddOut(s: State, sizes: seq<nat>, p: nat, c: nat, links: map<nat, nat>)
    requires Pages(s, sizes) && p !in s.info && c < |s.slab| == |sizes| && sizes[c] >= 1
    ensures Outstanding(Add(s, p, c, sizes[c], links)) == Outstanding(s)
  {
    var t := Add(s, p, c, sizes[c], links);
    hide PageIn, PageOk;
    forall f ensures f in Outstanding(t) <==> f in Outstanding(s) {
      if f in Outstanding(s) {
        var q, b :| q in s.info && b in s.out[q] && f == Extent(b, s.info[q].size);
        assert b in t.out[q];
      }
      if f in Outstanding(t) {
        var q, b :| q in t.info && b in t.out[q] && f == Extent(b, t.info[q].size);
        assert b in s.out[q];
      }
    }
  }

  // --------------------------------------------------------- the whole steps

  /** Taking a chunk keeps the invariant and hands out one new chunk. */
  lemma TakeSpec(s: State, sizes: seq<nat>, p: nat)
    requires Inv(s, sizes) && p in s.info && p in s.free && s.free[p] != []
    ensures p in s.out && s.info[p].cls < |s.slab| && s.info[p].chunk in s.links && Inv(Take(s, p), sizes)
    ensures var e := Extent(s.info[p].chunk, s.info[p].size);
      e !in Outstanding(s) && Outstanding(Take(s, p)) == Outstanding(s) + {e}
  {
    hide Pages, Lists, Outstanding;
    TakePages(s, sizes, p);
    TakeLists(s, sizes, p);
    TakeOut(s, sizes, p);
  }

  /** Giving a chunk back keeps the invariant and takes exactly this chunk in. */
  lemma GiveSpec(s: State, sizes: seq<nat>, p: nat, a: nat)
    requires Inv(s, sizes) && p in s.info && p in s.out && a in s.out[p]
    ensures p in s.free && s.info[p].cls < |s.slab| && s.info[p].nAllocated > 0 && a - a % PAGE_SIZE == p
    ensures Inv(Give(s, p, a), sizes) && Outstanding(Give(s, p, a)) == Outstanding(s) - {Extent(a, s.info[p].size)}
    ensures Extent(a, s.info[p].size) in Outstanding(s)
  {
    assert Extent(a, s.info[p].size) in Outstanding(s);
    hide Pages, Lists, Outstanding;
    GivePages(s, sizes, p, a);
    GiveLists(s, sizes, p, a);
    GiveOut(s, sizes, p, a);
  }

  /** A new page adds free chunks only. */
  lemma AddSpec(s: State, sizes: seq<nat>, p: nat, c: nat, links: map<nat, nat>)
    requires Inv(s, sizes) && c < |sizes| && p !in s.info && p > 0 && p % PAGE_SIZE == 0
    requires sizes[c] >= 1 && Chain(links, p, SlotsFrom(p, sizes[c], 0, PAGE_SIZE / sizes[c]))
    requires SameOutside(s.links, links, p)
    ensures c < |s.slab| && Inv(Add(s, p, c, sizes[c], links), sizes)
    ensures Outstanding(Add(s, p, c, sizes[c], links)) == Outstanding(s)
  {
    hide Pages, Lists, Outstanding, Chain, SlotsFrom;
    AddPages(s, sizes, p, c, links);
    AddLists(s, sizes, p, c, links);
    AddOut(s, sizes, p, c, links);
  }

  lemma Shape(s: State, sizes: seq<nat>)
    requires Inv(s, sizes)
    ensures |s.slab| == |sizes| && forall c :: 0 <= c < |sizes| ==> LINK <= sizes[c] <= PAGE_SIZE
  {
  }
}
