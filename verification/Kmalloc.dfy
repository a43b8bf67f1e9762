/**
 `kmalloc` and `kfree` (kernel/mm/kmalloc.c): small requests go to the slab allocator, whose
 pages come from the page allocator, large ones to the page allocator itself; every live
 block is mapped at its physical address plus `KERNEL_START`.
 */
module Kmalloc {
  import opened Platform
  import opened Dyadic
  import opened BuddyModel
  import opened KernelMap
  import Slab

  /** The virtual address of page `i` of the region. */
  function Va(base: nat, i: nat): nat { KERNEL_START + (base + i) * PAGE_SIZE }

  /** The page whose virtual address is `va`. */
  function IndexOf(base: nat, va: nat): int { (va - KERNEL_START) / PAGE_SIZE - base }

  lemma IndexOfVa(base: nat, i: nat)
    ensures IndexOf(base, Va(base, i)) == i && Va(base, i) % PAGE_SIZE == 0 && Va(base, i) > 0
  {
  }

  /** A slab page is a live block of one page. */
  ghost predicate SlabBlock(base: nat, live: map<nat, Page>, va: nat) {
    var i := IndexOf(base, va);
    i >= 0 && va == Va(base, i) && i in live && live[i].size == PAGE_SIZE
  }

  /** Pages, blocks and slabs fit together. */
  ghost predicate Fits(base: nat, n: nat, live: map<nat, Page>, table: seq<Pte>, s: Slab.State) {
    && LiveOk(live, n) && PresentIffLive(table, base, n, live)
    && (forall i :: i in live ==> live[i].refCnt == 1)
    && (forall va :: va in s.info ==> SlabBlock(base, live, va))
  }

  /** Blocks handed out as a whole. */
  ghost function Blocks(base: nat, live: map<nat, Page>, s: Slab.State): set<Extent> {
    set i | i in live && Va(base, i) !in s.info :: Extent(Va(base, i), live[i].size)
  }

  /** Everything `kmalloc` has handed out and not got back. */
  ghost function Regions(base: nat, live: map<nat, Page>, s: Slab.State): set<Extent> {
    Blocks(base, live, s) + Slab.Outstanding(s)
  }

  lemma BlocksApart(base: nat, n: nat, live: map<nat, Page>, i: nat, j: nat)
    requires LiveOk(live, n) && i in live && j in live && i < j
    ensures Va(base, i) + live[i].size <= Va(base, j)
  {
    var k := Order(live[i]);
    assert Pow2(k) >= 1;
    assert Pow2(Order(live[j])) >= 1;
    assert Covers(live, j, j);
    assert !Covers(live, i, j);
    assert live[i].size == Pow2(k) * PAGE_SIZE;
  }

  /** A chunk lies inside the live block of its page. */
  lemma ChunkInBlock(base: nat, n: nat, live: map<nat, Page>, table: seq<Pte>, s: Slab.State, sizes: seq<nat>,
                     e: Extent) returns (i: nat)
    requires Fits(base, n, live, table, s) && Slab.Inv(s, sizes) && e in Slab.Outstanding(s)
    ensures i in live && Va(base, i) in s.info && live[i].size == PAGE_SIZE && Va(base, i) == e.at - e.at % PAGE_SIZE
    ensures Va(base, i) <= e.at && e.at + e.size <= Va(base, i) + live[i].size
  {
    var p, a :| p in s.info && p in s.out && a in s.out[p] && e == Extent(a, s.info[p].size);
    assert Slab.PageIn(s, sizes, p);
    Slab.ChunkInPage(s, sizes, p, a);
    assert SlabBlock(base, live, p);
    i := IndexOf(base, p);
  }

  /** No two regions overlap, whether blocks or chunks. */
  lemma RegionsDisjoint(base: nat, n: nat, live: map<nat, Page>, table: seq<Pte>, s: Slab.State, sizes: seq<nat>,
                        e: Extent, f: Extent)
    requires Fits(base, n, live, table, s) && Slab.Inv(s, sizes)
    requires e in Regions(base, live, s) && f in Regions(base, live, s) && e != f
    ensures Apart(e, f)
  {
    hide Regions, Slab.Inv, Slab.Outstanding, LiveOk, PresentIffLive;
    if e in Slab.Outstanding(s) && f in Slab.Outstanding(s) {
      Slab.OutDisjoint(s, sizes, e, f);
    } else {
      var i := HomeBlock(base, n, live, table, s, sizes, e);
      var j := HomeBlock(base, n, live, table, s, sizes, f);
      assert LiveOk(live, n);
      hide *;
      if i < j {
        BlocksApart(base, n, live, i, j);
      } else if j < i {
        BlocksApart(base, n, live, j, i);
      }
    }
  }

  /** Every region lies in one live block, and fills it unless that is a slab page. */
  lemma HomeBlock(base: nat, n: nat, live: map<nat, Page>, table: seq<Pte>, s: Slab.State, sizes: seq<nat>,
                  e: Extent) returns (i: nat)
    requires Fits(base, n, live, table, s) && Slab.Inv(s, sizes) && e in Regions(base, live, s)
    ensures i in live && Va(base, i) <= e.at && e.at + e.size <= Va(base, i) + live[i].size
    ensures e !in Slab.Outstanding(s) ==> Va(base, i) !in s.info && e == Extent(Va(base, i), live[i].size)
    ensures e in Slab.Outstanding(s) ==> Va(base, i) in s.info
  {
    if e in Slab.Outstanding(s) {
      i := ChunkInBlock(base, n, live, table, s, sizes, e);
    } else {
      i :| i in live && Va(base, i) !in s.info && e == Extent(Va(base, i), live[i].size);
    }
  }

  // ------------------------------------------------------------------- steps

  /** A block that was vacant is neither live nor a slab page. */
  lemma NewBlock(base: nat, n: nat, live: map<nat, Page>, table: seq<Pte>, s: Slab.State, p: nat, k: nat)
    requires Fits(base, n, live, table, s) && VacantRun(live, n, p, k)
    ensures p !in live && Va(base, p) !in s.info
  {
    assert Pow2(k) >= 1;
    assert Vacant(live, p);
    if p in live {
      assert Pow2(Order(live[p])) >= 1;
      assert Covers(live, p, p);
    }
    IndexOfVa(base, p);
    assert !SlabBlock(base, live, Va(base, p));
  }

  /** A mapped new block fits in. */
  lemma BlockFits(base: nat, n: nat, live: map<nat, Page>, table: seq<Pte>, table': seq<Pte>, s: Slab.State,
                  p: nat, k: nat)
    requires Fits(base, n, live, table, s) && VacantRun(live, n, p, k) && Mapped(table, table', base + p, Pow2(k))
    requires LiveOk(live[p := Page(true, Bytes(k), 1)], n)
    ensures Fits(base, n, live[p := Page(true, Bytes(k), 1)], table', s)
  {
    MapKeeps(table, table', base, n, live, p, k);
    NewBlock(base, n, live, table, s, p, k);
    hide PresentIffLive, LiveOk, Vacant;
    var live' := live[p := Page(true, Bytes(k), 1)];
    forall va | va in s.info ensures SlabBlock(base, live', va) {
      assert SlabBlock(base, live, va);
    }
  }

  /** A large request: one block more is handed out. */
  lemma BlockGiven(base: nat, n: nat, live: map<nat, Page>, table: seq<Pte>, s: Slab.State, sizes: seq<nat>,
                   p: nat, k: nat)
    requires Fits(base, n, live, table, s) && VacantRun(live, n, p, k) && Slab.Inv(s, sizes)
    ensures var e := Extent(Va(base, p), Bytes(k));
      && e !in Regions(base, live, s)
      && Regions(base, live[p := Page(true, Bytes(k), 1)], s) == Regions(base, live, s) + {e}
  {
    hide *;
    NewBlock(base, n, live, table, s, p, k);
    NotAChunk(base, n, live, table, s, sizes, p, Bytes(k));
    NotABlock(base, live, s, p, Bytes(k));
    BlockAdded(base, live, s, p, Page(true, Bytes(k), 1));
    RegionsAre(base, live, s);
    RegionsAre(base, live[p := Page(true, Bytes(k), 1)], s);
  }

  lemma RegionsAre(base: nat, live: map<nat, Page>, s: Slab.State)
    ensures Regions(base, live, s) == Blocks(base, live, s) + Slab.Outstanding(s)
  {
  }

  lemma NotAChunk(base: nat, n: nat, live: map<nat, Page>, table: seq<Pte>, s: Slab.State, sizes: seq<nat>,
                  p: nat, size: nat)
    requires Fits(base, n, live, table, s) && Slab.Inv(s, sizes) && Va(base, p) !in s.info
    ensures Extent(Va(base, p), size) !in Slab.Outstanding(s)
  {
    hide Fits, Slab.Inv, Slab.Outstanding, Va;
    var e := Extent(Va(base, p), size);
    if e in Slab.Outstanding(s) {
      var i := ChunkInBlock(base, n, live, table, s, sizes, e);
      IndexOfVa(base, p);
    }
  }

  lemma BlockAdded(base: nat, live: map<nat, Page>, s: Slab.State, p: nat, pg: Page)
    requires p !in live && Va(base, p) !in s.info
    ensures Blocks(base, live[p := pg], s) == Blocks(base, live, s) + {Extent(Va(base, p), pg.size)}
  {
    hide Va;
    var live', e := live[p := pg], Extent(Va(base, p), pg.size);
    forall f ensures f in Blocks(base, live', s) <==> f in Blocks(base, live, s) + {e} {
      if f in Blocks(base, live, s) {
        var i :| i in live && Va(base, i) !in s.info && f == Extent(Va(base, i), live[i].size);
        assert live'[i] == live[i];
      }
      assert live'[p].size == e.size;
    }
  }

  lemma NotABlock(base: nat, live: map<nat, Page>, s: Slab.State, p: nat, size: nat)
    requires p !in live
    ensures Extent(Va(base, p), size) !in Blocks(base, live, s)
  {
    forall i | i in live ensures Va(base, i) != Va(base, p) {
      IndexOfVa(base, i);
      IndexOfVa(base, p);
    }
  }

  /** A new slab page: nothing more is handed out yet. */
  lemma SlabGrows(base: nat, n: nat, live: map<nat, Page>, table: seq<Pte>, s: Slab.State, p: nat, k: nat,
                  t: Slab.State)
    requires Fits(base, n, live, table, s) && VacantRun(live, n, p, k) && Bytes(k) == PAGE_SIZE
    requires t.info.Keys == s.info.Keys + {Va(base, p)} && Slab.Outstanding(t) == Slab.Outstanding(s)
    ensures var live' := live[p := Page(true, Bytes(k), 1)]; Regions(base, live', t) == Regions(base, live, s)
  {
    NewBlock(base, n, live, table, s, p, k);
    var live' := live[p := Page(true, Bytes(k), 1)];
    hide Fits, VacantRun, Bytes, Slab.Outstanding;
    forall f ensures f in Blocks(base, live', t) <==> f in Blocks(base, live, s) {
      if f in Blocks(base, live, s) {
        var i :| i in live && Va(base, i) !in s.info && f == Extent(Va(base, i), live[i].size);
        IndexOfVa(base, i);
        IndexOfVa(base, p);
        assert live'[i] == live[i] && Va(base, i) !in t.info;
      }
    }
  }

  lemma SlabPageFits(base: nat, n: nat, live: map<nat, Page>, table: seq<Pte>, s: Slab.State, p: nat, t: Slab.State)
    requires Fits(base, n, live, table, s) && p in live && live[p].size == PAGE_SIZE
    requires t.info.Keys == s.info.Keys + {Va(base, p)}
    ensures Fits(base, n, live, table, t)
  {
    IndexOfVa(base, p);
    hide PresentIffLive, LiveOk;
    forall va | va in t.info ensures SlabBlock(base, live, va) {
      if va in s.info { assert SlabBlock(base, live, va); }
    }
  }

  /** A small request: one chunk more is handed out. */
  lemma ChunkGiven(base: nat, n: nat, live: map<nat, Page>, table: seq<Pte>, s: Slab.State, t: Slab.State,
                   sizes: seq<nat>, e: Extent)
    requires Fits(base, n, live, table, s) && Slab.Inv(t, sizes) && t.info.Keys == s.info.Keys
    requires e !in Slab.Outstanding(s) && Slab.Outstanding(t) == Slab.Outstanding(s) + {e}
    ensures Fits(base, n, live, table, t)
    ensures e !in Regions(base, live, s) && Regions(base, live, t) == Regions(base, live, s) + {e}
  {
    SameInfo(base, n, live, table, s, t);
    ChunkNotBlock(base, n, live, table, t, sizes, e);
  }

  lemma SameInfo(base: nat, n: nat, live: map<nat, Page>, table: seq<Pte>, s: Slab.State, t: Slab.State)
    requires Fits(base, n, live, table, s) && t.info.Keys == s.info.Keys
    ensures Fits(base, n, live, table, t) && Blocks(base, live, t) == Blocks(base, live, s)
  {
    hide PresentIffLive, LiveOk;
    forall va | va in t.info ensures SlabBlock(base, live, va) { assert va in s.info; }
    forall i ensures Va(base, i) in t.info <==> Va(base, i) in s.info { }
  }

  /** A chunk is never a whole block. */
  lemma ChunkNotBlock(base: nat, n: nat, live: map<nat, Page>, table: seq<Pte>, s: Slab.State, sizes: seq<nat>,
                      e: Extent)
    requires Fits(base, n, live, table, s) && Slab.Inv(s, sizes) && e in Slab.Outstanding(s)
    ensures e !in Blocks(base, live, s)
  {
    hide Fits, Slab.Inv, Slab.Outstanding, Va;
    var i := ChunkInBlock(base, n, live, table, s, sizes, e);
    forall j | j in live && Va(base, j) !in s.info ensures e.at != Va(base, j) {
      IndexOfVa(base, j);
    }
  }

  /** `kfree` of a chunk. */
  lemma ChunkBack(base: nat, n: nat, live: map<nat, Page>, table: seq<Pte>, s: Slab.State, t: Slab.State,
                  sizes: seq<nat>, e: Extent)
    requires Fits(base, n, live, table, s) && Slab.Inv(s, sizes) && t.info.Keys == s.info.Keys
    requires e in Slab.Outstanding(s) && Slab.Outstanding(t) == Slab.Outstanding(s) - {e}
    ensures Fits(base, n, live, table, t) && e in Regions(base, live, s)
    ensures Regions(base, live, t) == Regions(base, live, s) - {e}
  {
    SameInfo(base, n, live, table, s, t);
    ChunkNotBlock(base, n, live, table, s, sizes, e);
  }

  /** `kfree` of a block. */
  lemma BlockBack(base: nat, n: nat, live: map<nat, Page>, table: seq<Pte>, table': seq<Pte>, s: Slab.State,
                  sizes: seq<nat>, p: nat)
    requires Fits(base, n, live, table, s) && Slab.Inv(s, sizes) && p in live && Va(base, p) !in s.info
    requires Unmapped(table, table', base + p, Pow2(Order(live[p]))) && LiveOk(live - {p}, n)
    ensures Fits(base, n, live - {p}, table', s)
    ensures Regions(base, live - {p}, s) == Regions(base, live, s) - {Extent(Va(base, p), live[p].size)}
  {
    hide PresentIffLive, LiveOk, Slab.Inv, Slab.Outstanding, Blocks, Va;
    var e, live' := Extent(Va(base, p), live[p].size), live - {p};
    UnmapKeeps(table, table', base, n, live, p);
    assert live == live'[p := live[p]];
    NotAChunk(base, n, live, table, s, sizes, p, live[p].size);
    NotABlock(base, live', s, p, live[p].size);
    BlockAdded(base, live', s, p, live[p]);
    IndexOfVa(base, p);
    forall va | va in s.info ensures SlabBlock(base, live', va) { assert SlabBlock(base, live, va); }
  }

  /** The page that `kfree` finds by rounding an address down is the home of the region that begins there. */
  lemma PageOfRegion(base: nat, n: nat, live: map<nat, Page>, table: seq<Pte>, s: Slab.State, sizes: seq<nat>,
                     e: Extent) returns (i: nat)
    requires Fits(base, n, live, table, s) && Slab.Inv(s, sizes) && e in Regions(base, live, s)
    ensures i in live && i < n && Va(base, i) == e.at - e.at % PAGE_SIZE && !Vacant(live, i)
    ensures e in Slab.Outstanding(s) <==> Va(base, i) in s.info
    ensures e !in Slab.Outstanding(s) ==> e == Extent(Va(base, i), live[i].size)
  {
    i := HomeBlock(base, n, live, table, s, sizes, e);
    if e in Slab.Outstanding(s) {
      i := ChunkInBlock(base, n, live, table, s, sizes, e);
    } else {
      IndexOfVa(base, i);
    }
    assert Pow2(Order(live[i])) >= 1;
    assert Covers(live, i, i);
  }
}
