/**
 The kernel heap as a whole (kernel/mm/kmalloc.c, kernel/mm/vm.c): the page allocator, the
 slab allocator and the kernel page table, changed together by `kmalloc` and `kfree`.
 */
module KernelHeap {
  import opened Platform
  import opened Dyadic
  import opened BuddyModel
  import opened KernelMap
  import opened Kmalloc
  import BuddyAllocator
  import SlabAllocator
  import Slab
  import Qlib

  const PHYS_TOP: nat := 0x4000_0000 - 0x200_0000      // 1 GiB less DEVSP_SIZE

  class Heap {
    const buddy: BuddyAllocator.Allocator
    const slab: SlabAllocator.Allocator
    const table: array<Pte>            // the kernel's page table entries
    const base: nat                    // the first managed frame

    ghost predicate Valid()
      reads this, buddy, buddy.pages, slab, table
    {
      && buddy.Valid() && buddy.Counted() && slab.Valid() && SlabAllocator.Builtin(slab.sizes)
      && buddy.addr == base * PAGE_SIZE && base >= 1 && (base + buddy.pageCnt) * PAGE_SIZE <= PHYS_TOP
      && (buddy.pages as object) != (table as object)
      && Fits(base, buddy.pageCnt, buddy.LiveBlocks(), table[..], slab.State())
    }

    /** What `kmalloc` has handed out. */
    ghost function HandedOut(): set<Extent>
      requires buddy.InBounds()
      reads this, buddy, buddy.pages, slab
    {
      Regions(base, buddy.LiveBlocks(), slab.State())
    }

    /** After `page_setup` and `slab_init`, with the managed frames unmapped. */
    constructor (buddy: BuddyAllocator.Allocator, slab: SlabAllocator.Allocator, table: array<Pte>)
      requires buddy.Valid() && buddy.LiveBlocks() == map[] && buddy.Counted()
      requires buddy.addr % PAGE_SIZE == 0 && buddy.addr > 0
      requires slab.Valid() && SlabAllocator.Builtin(slab.sizes) && slab.Chunks() == {} && slab.info == map[]
      requires (buddy.pages as object) != (table as object)
      requires buddy.addr / PAGE_SIZE + buddy.pageCnt <= table.Length
      requires buddy.addr + buddy.pageCnt * PAGE_SIZE <= PHYS_TOP
      requires forall j :: buddy.addr / PAGE_SIZE <= j < buddy.addr / PAGE_SIZE + buddy.pageCnt ==> table[j] == Absent
      ensures Valid() && HandedOut() == {}
      ensures this.buddy == buddy && this.slab == slab && this.table == table && base * PAGE_SIZE == buddy.addr
    {
      this.buddy, this.slab, this.table, this.base := buddy, slab, table, buddy.addr / PAGE_SIZE;
    }

    /** `__alloc_page` followed by `kvm_map`: neither of its assertions fails. */
    method AllocMapped(bytes: nat) returns (r: Option<nat>, ghost k: nat)
      requires Valid() && bytes < U32
      modifies buddy`root, buddy`size, buddy.pages, table
      ensures Valid()
      ensures r.Some? <==> CanServe(old(buddy.LiveBlocks()), old(buddy.pageCnt), bytes)
      ensures r.None? ==> buddy.LiveBlocks() == old(buddy.LiveBlocks())
      ensures r.Some? ==>
                BuddyAllocator.Serves(bytes, k) && VacantRun(old(buddy.LiveBlocks()), old(buddy.pageCnt), r.value, k)
      ensures r.Some? ==> buddy.LiveBlocks() == old(buddy.LiveBlocks())[r.value := Page(true, Bytes(k), 1)]
    {
      hide Inv, VacantRun, LiveOk, PresentIffLive, Mapped, Live, BuddyAllocator.Serves, Slab.Inv, Bytes;
      ghost var n, live, t, s := buddy.pageCnt, buddy.LiveBlocks(), table[..], slab.State();
      k := 0;
      var page := buddy.AllocPage(bytes);
      if page.None? { return None, k; }
      var p := page.value;
      k :| BuddyAllocator.Serves(bytes, k) && VacantRun(live, n, p, k)
        && buddy.LiveBlocks() == live[p := Page(true, Bytes(k), 1)];
      FreshBlockUnmapped(t, base, n, live, p, k);
      HeapLiveOk(buddy.Heap());
      BlockDescriptor(buddy.pages[..buddy.pageCnt], p, k);
      assert buddy.PageAddr(p) < PHYS_TOP;
      var ok := KvmMaps(table, base + p, buddy.pages[p].size / PAGE_SIZE);
      assert ok;
      BlockFits(base, n, live, t, table[..], s, p, k);
      return Some(p), k;
    }

    /** A page that was just allocated and mapped becomes a slab of list `c`. */
    method AttachSlab(c: nat, p: nat, ghost live: map<nat, Page>, ghost t: seq<Pte>, ghost k: nat)
      requires Valid() && c < |slab.sizes| && Fits(base, buddy.pageCnt, live, t, slab.State())
      requires VacantRun(live, buddy.pageCnt, p, k) && Bytes(k) == PAGE_SIZE
      requires buddy.LiveBlocks() == live[p := Page(true, Bytes(k), 1)]
      modifies slab
      ensures Valid() && HandedOut() == Regions(base, live, old(slab.State()))
      ensures |slab.slab| == |slab.sizes| && slab.slab[c] != []
    {
      hide *;
      ValidMeans();
      ghost var n, live1, t1, s := buddy.pageCnt, buddy.LiveBlocks(), table[..], slab.State();
      NewBlock(base, n, live, t, s, p, k);
      IndexOfVa(base, p);
      slab.AddSlab(c, Va(base, p));
      assert buddy.LiveBlocks() == live1 && table[..] == t1;
      ValidMeans();
      SlabPageFits(base, n, live1, t1, s, p, slab.State());
      SlabGrows(base, n, live, t, s, p, k, slab.State());
    }

    /** `add_slab` for list `c`, with a page from the page allocator. */
    method GrowSlab(c: nat) returns (ok: bool)
      requires Valid() && c < |slab.sizes|
      modifies buddy`root, buddy`size, buddy.pages, table, slab
      ensures Valid() && HandedOut() == old(HandedOut())
      ensures ok <==> CanServe(old(buddy.LiveBlocks()), old(buddy.pageCnt), PAGE_SIZE)
      ensures ok ==> |slab.slab| == |slab.sizes| && slab.slab[c] != []
    {
      assert PAGE_SIZE < U32;
      hide *;
      ValidMeans();
      ghost var live, t := buddy.LiveBlocks(), table[..];
      var r, k := AllocMapped(PAGE_SIZE);
      ValidMeans();
      ok := r.Some?;
      if ok {
        OnePage(k);
        AttachSlab(c, r.value, live, t, k);
      }
    }

    /** `__slab_alloc` on a list that has a page. */
    method TakeChunk(c: nat) returns (chunk: nat)
      requires Valid() && c < |slab.sizes| == |slab.slab| && slab.slab[c] != []
      modifies slab
      ensures Valid() && GaveOut(old(HandedOut()), HandedOut(), chunk, slab.sizes[c])
      ensures Extent(chunk, slab.sizes[c]) in slab.Chunks()
    {
      hide *;
      ValidMeans();
      ghost var live, t, s := buddy.LiveBlocks(), table[..], slab.State();
      chunk := slab.TakeFirst(c);
      assert buddy.LiveBlocks() == live && table[..] == t;
      ValidMeans();
      ghost var e := Extent(chunk, slab.sizes[c]);
      ChunkGiven(base, buddy.pageCnt, live, t, s, slab.State(), slab.sizes, e);
      GaveOutHere(base, buddy.pageCnt, live, t, slab.State(), slab.sizes, old(HandedOut()), e);
    }

    /** `__slab_alloc`: a chunk of list `c`, to which a page is added only if it has none. */
    method AllocFromList(c: nat) returns (r: Option<nat>)
      requires Valid() && c < |slab.sizes|
      modifies buddy`root, buddy`size, buddy.pages, table, slab
      ensures Valid()
      ensures r.Some? <==>
        || (c < |old(slab.slab)| && old(slab.slab)[c] != [])
        || CanServe(old(buddy.LiveBlocks()), old(buddy.pageCnt), PAGE_SIZE)
      ensures r.None? ==> HandedOut() == old(HandedOut())
      ensures r.Some? ==> GaveOut(old(HandedOut()), HandedOut(), r.value, slab.sizes[c])
      ensures r.Some? ==> Extent(r.value, slab.sizes[c]) in slab.Chunks()
      ensures c < |old(slab.slab)| && old(slab.slab)[c] != [] ==> buddy.LiveBlocks() == old(buddy.LiveBlocks())
    {
      hide *;
      ValidMeans();
      if slab.slab[c] == [] {
        var ok := GrowSlab(c);
        if !ok { return None; }
      }
      var chunk := TakeChunk(c);
      return Some(chunk);
    }

    /** `slab_alloc` */
    method SlabRoute(size: nat) returns (r: Option<nat>)
      requires Valid() && 1 <= size <= SlabAllocator.SLAB_MAX
      modifies buddy`root, buddy`size, buddy.pages, table, slab
      ensures Valid()
      ensures r.Some? <==> SmallServable(old(slab.slab), old(buddy.LiveBlocks()), old(buddy.pageCnt), size)
      ensures r.None? ==> HandedOut() == old(HandedOut())
      ensures r.Some? ==> GaveChunk(old(HandedOut()), HandedOut(), r.value, size)
      ensures r.Some? ==> IsChunk(slab.Chunks(), r.value)
      ensures PagesAsNeeded(old(slab.slab), old(buddy.LiveBlocks()), buddy.LiveBlocks(), size)
    {
      var want := if size < SlabAllocator.SLAB_MIN then SlabAllocator.SLAB_MIN else size;
      var fixed := Qlib.FixSize(want);
      var lg := SlabList(want, fixed);
      ListOfSize(slab.sizes, want, lg);
      SmallMeans(slab.slab, buddy.LiveBlocks(), buddy.pageCnt, size, lg);
      NeededMeans(slab.slab, size, lg);
      hide *;
      r := AllocFromList(lg - 2);
      if r.Some? {
        GaveChunkHere(old(HandedOut()), HandedOut(), r.value, size, lg);
        ChunkHere(slab.Chunks(), Extent(r.value, slab.sizes[lg - 2]));
      }
    }

    /**
     `kmalloc`: the region is as large as asked for and overlaps nothing that is handed out. Requests of
     1 to 2048 bytes get a slab chunk, those up to 4 MiB a block of pages, all others fail.
     */
    method Kmalloc(bytes: nat) returns (r: Option<nat>)
      requires Valid() && bytes < U32
      modifies buddy`root, buddy`size, buddy.pages, table, slab
      ensures Valid()
      ensures r.Some? <==> Served(old(slab.slab), old(buddy.LiveBlocks()), old(buddy.pageCnt), bytes)
      ensures r.None? ==> HandedOut() == old(HandedOut())
      ensures r.Some? ==> GaveRegion(old(HandedOut()), HandedOut(), r.value, bytes)
      ensures r.Some? ==> (IsChunk(slab.Chunks(), r.value) <==> bytes <= 2048)
      ensures r.Some? ==> exists e :: e in HandedOut() - old(HandedOut()) && e.at == r.value && SnugFor(e.size, bytes)
    {
      ServedIffServable(slab.slab, buddy.LiveBlocks(), buddy.pageCnt, bytes);
      var fixed := Qlib.FixSize(bytes);
      Rounded(bytes, fixed);
      SmallRounded(bytes, fixed);
      ServableMeans(slab.slab, buddy.LiveBlocks(), buddy.pageCnt, bytes, fixed);
      if fixed <= SlabAllocator.SLAB_MAX {
        if fixed == 0 { return None; }
        r := SlabRoute(fixed);
        hide *;
        if r.Some? {
          SmallRegion(old(HandedOut()), HandedOut(), r.value, bytes, fixed);
          RegionSnug(old(HandedOut()), HandedOut(), r.value, bytes);
        }
        return;
      }
      hide *;
      ValidMeans();
      ghost var live, t, s := buddy.LiveBlocks(), table[..], slab.State();
      var page, k := AllocMapped(fixed);
      ValidMeans();
      if page.None? { return None; }
      BlockGiven(base, buddy.pageCnt, live, t, s, slab.sizes, page.value, k);
      NewBlock(base, buddy.pageCnt, live, t, s, page.value, k);
      NoChunkHere(base, buddy.pageCnt, live, t, s, slab.sizes, page.value);
      ghost var e := Extent(Va(base, page.value), Bytes(k));
      GaveOutHere(base, buddy.pageCnt, buddy.LiveBlocks(), table[..], s, slab.sizes, old(HandedOut()), e);
      LargeRegion(old(HandedOut()), HandedOut(), Va(base, page.value), bytes, fixed, k);
      RegionSnug(old(HandedOut()), HandedOut(), Va(base, page.value), bytes);
      return Some(Va(base, page.value));
    }

    /** `va_get_page` of the page that holds `addr`. */
    method VaGetPage(addr: nat, ghost e: Extent) returns (p: nat)
      requires Valid() && e in HandedOut() && e.at == addr
      ensures p < buddy.pageCnt && Va(base, p) == addr - addr % PAGE_SIZE && p in buddy.LiveBlocks()
      ensures e in slab.Chunks() <==> Va(base, p) in slab.info
      ensures e !in slab.Chunks() ==> e == Extent(Va(base, p), buddy.LiveBlocks()[p].size)
    {
      hide *;
      ValidMeans();
      ghost var i := PageOfRegion(base, buddy.pageCnt, buddy.LiveBlocks(), table[..], slab.State(), slab.sizes, e);
      FrameOfVa(table[..], base, buddy.pageCnt, buddy.LiveBlocks(), slab.State(), i, addr);
      var frame: nat := (addr - addr % PAGE_SIZE - KERNEL_START) / PAGE_SIZE;
      var pa := V2P(table[..], frame);
      assert pa != 0;
      p := (pa - buddy.addr) / PAGE_SIZE;
    }

    /** `kfree` of a region that is handed out: this region and no other is taken back. */
    method Kfree(addr: nat)
      requires Valid() && exists e :: e in HandedOut() && e.at == addr
      modifies buddy`root, buddy`freed, buddy.pages, table, slab
      ensures Valid() && TookBack(old(HandedOut()), HandedOut(), addr)
    {
      hide Fits, Regions, Slab.Inv, Slab.Outstanding, BuddyModel.Inv;
      ghost var e :| e in HandedOut() && e.at == addr;
      var p := VaGetPage(addr, e);
      if Va(base, p) in slab.info {
        FreeChunk(addr, e);
      } else {
        FreeBlock(p);
      }
    }

    /** `slab_free` */
    method FreeChunk(addr: nat, ghost e: Extent)
      requires Valid() && e in slab.Chunks() && e.at == addr
      modifies slab
      ensures Valid() && TookBack(old(HandedOut()), HandedOut(), addr)
    {
      hide *;
      ValidMeans();
      ghost var live, t, s := buddy.LiveBlocks(), table[..], slab.State();
      slab.Free(addr);
      assert buddy.LiveBlocks() == live && table[..] == t;
      ValidMeans();
      ghost var f :|
        f in Slab.Outstanding(s) && f.at == addr && Slab.Outstanding(slab.State()) == Slab.Outstanding(s) - {f};
      ChunkBack(base, buddy.pageCnt, live, t, s, slab.State(), slab.sizes, f);
      TookBackHere(base, live, s, HandedOut(), f);
    }

    /** `kvm_unmap` and `__free_page` */
    method FreeBlock(p: nat)
      requires Valid() && p in buddy.LiveBlocks() && p < buddy.pageCnt && Va(base, p) !in slab.info
      modifies buddy`root, buddy`freed, buddy.pages, table
      ensures Valid() && TookBack(old(HandedOut()), HandedOut(), Va(base, p))
    {
      ValidMeans();
      ghost var live, t, s := buddy.LiveBlocks(), table[..], slab.State();
      LiveBlockAt(buddy.Heap(), p);
      V2PInverts(t, base, buddy.pageCnt, live, buddy.pageCnt - 1);
      hide *;
      KvmUnmap(table, base + p, buddy.pages[p].size / PAGE_SIZE);
      var _ := buddy.FreePage(p);
      HeapLiveOk(buddy.Heap());
      ValidMeans();
      BlockBack(base, buddy.pageCnt, live, t, table[..], s, slab.sizes, p);
      TookBackHere(base, live, s, HandedOut(), Extent(Va(base, p), live[p].size));
    }

    lemma ValidMeans()
      ensures Valid() <==>
        && buddy.Valid() && buddy.Counted() && slab.Valid() && SlabAllocator.Builtin(slab.sizes)
        && buddy.addr == base * PAGE_SIZE && base >= 1 && (base + buddy.pageCnt) * PAGE_SIZE <= PHYS_TOP
        && (buddy.pages as object) != (table as object)
        && Fits(base, buddy.pageCnt, buddy.LiveBlocks(), table[..], slab.State())
      ensures buddy.Valid() ==> buddy.InBounds() && HandedOut() == Regions(base, buddy.LiveBlocks(), slab.State())
      ensures slab.Valid() <==> Slab.Inv(slab.State(), slab.sizes)
      ensures slab.Valid() ==> |slab.slab| == |slab.sizes|
      ensures slab.State().info == slab.info && slab.Chunks() == Slab.Outstanding(slab.State())
    {
    }
  }

  /** The sizes of `slab_alloc`'s lists. */
  function BuiltinSizes(): (sizes: seq<nat>)
    ensures SlabAllocator.Builtin(sizes)
  {
    seq(SlabAllocator.LIST_SIZE, i requires 0 <= i => Pow2(i + 2))
  }

  lemma SizesServe()
    ensures forall c :: 0 <= c < |BuiltinSizes()| ==> 4 <= BuiltinSizes()[c] <= PAGE_SIZE
  {
    var sizes := BuiltinSizes();
    forall c | 0 <= c < |sizes| ensures 4 <= sizes[c] <= PAGE_SIZE {
      Pow2Monotone(2, c + 2);
      Pow2Monotone(c + 2, 11);
    }
  }

  /**
   From `pmm_init` and `slab_init` to a heap that `kmalloc` can use, for one region of memory that
   begins at `start`, with the page table entries from there on absent.
   */
  method Boot(reserved: nat, start: nat, bytes: nat, table: array<Pte>) returns (heap: Heap)
    requires start > 0 && BuddyAllocator.Lost(start) <= bytes && bytes / PAGE_SIZE <= reserved
    requires start + bytes <= PHYS_TOP && table.Length * PAGE_SIZE >= PHYS_TOP
    requires forall j :: start / PAGE_SIZE <= j < table.Length ==> table[j] == Absent
    ensures heap.Valid() && heap.HandedOut() == {} && heap.table == table
    ensures fresh(heap.buddy) && fresh(heap.buddy.pages) && fresh(heap.slab)
  {
    hide Inv, AllFree, Live, Slab.Inv, Slab.Outstanding, SlabAllocator.Builtin, Fits, Regions, Pow2,
      BuddyAllocator.Allocator.Counted;
    var buddy := new BuddyAllocator.Allocator(reserved, start, bytes);
    SizesServe();
    var slab := new SlabAllocator.Allocator(BuiltinSizes());
    heap := new Heap(buddy, slab, table);
  }

  /** The arithmetic of `va_get_page`: from an address in page `i` to its frame, and through `v2p` to the page. */
  lemma FrameOfVa(t: seq<Pte>, base: nat, n: nat, live: map<nat, Page>, s: Slab.State, i: nat, addr: nat)
    requires Fits(base, n, live, t, s) && base >= 1 && i < n && !Vacant(live, i)
    requires Va(base, i) == addr - addr % PAGE_SIZE
    ensures PAGE_SIZE != 0 && addr - addr % PAGE_SIZE >= KERNEL_START
    ensures (addr - addr % PAGE_SIZE - KERNEL_START) / PAGE_SIZE == base + i < |t|
    ensures V2P(t, base + i) != 0 && (V2P(t, base + i) - base * PAGE_SIZE) / PAGE_SIZE == i
  {
    V2PInverts(t, base, n, live, i);
    hide Fits, Vacant;
  }

  /**
   A managed frame is present in the page table exactly when its page is allocated, and then `v2p` gives
   its address.
   */
  lemma MappedIffLive(h: Heap, x: nat)
    requires h.Valid() && x < h.buddy.pageCnt
    ensures h.base + x < h.table.Length
    ensures h.table[h.base + x].Present? <==> exists i :: Covers(h.buddy.LiveBlocks(), i, x)
    ensures V2P(h.table[..], h.base + x) == if h.table[h.base + x].Present? then h.buddy.PageAddr(x) else 0
  {
    V2PInverts(h.table[..], h.base, h.buddy.pageCnt, h.buddy.LiveBlocks(), x);
    assert EntryOk(h.table[..], h.base, h.buddy.LiveBlocks(), x);
  }

  /** Some aligned run of unallocated pages serves the request. */
  ghost predicate CanServe(live: map<nat, Page>, n: nat, bytes: nat) {
    exists k: nat, s: nat :: BuddyAllocator.Serves(bytes, k) && VacantRun(live, n, s, k)
  }

  /** `lg` is the exponent of the chunk size for a small request: the least from 2 on. */
  ghost predicate ListOf(size: nat, lg: nat) {
    2 <= lg <= 11 && size <= Pow2(lg) && (lg == 2 || Pow2(lg - 1) < size)
  }

  /** The list of the size has a page with a free chunk, or a page can be had for it. */
  ghost predicate SmallServable(lists: seq<seq<nat>>, live: map<nat, Page>, n: nat, size: nat) {
    exists lg: nat :: ListOf(size, lg) && ((lg - 2 < |lists| && lists[lg - 2] != []) || CanServe(live, n, PAGE_SIZE))
  }

  /** What `kmalloc` can serve: a positive request up to 2^31, from its slab list or from the page allocator. */
  ghost predicate Servable(lists: seq<seq<nat>>, live: map<nat, Page>, n: nat, bytes: nat) {
    exists k: nat :: 1 <= bytes && k <= 31 && Qlib.LeastPow2(bytes, Pow2(k), k)
      && (if Pow2(k) <= SlabAllocator.SLAB_MAX then SmallServable(lists, live, n, Pow2(k))
          else CanServe(live, n, Pow2(k)))
  }

  // -------------------------------------------- the same in numbers alone

  /** An aligned run of unallocated pages is there that is large enough, and no smaller run would be. */
  ghost predicate PagesFor(live: map<nat, Page>, n: nat, bytes: nat) {
    exists k: nat, s: nat ::
      && k <= 10 && bytes <= 4096 * Pow2(k) && (k == 0 || 4096 * Pow2(k - 1) < bytes) && VacantRun(live, n, s, k)
  }

  /** The slab list of the least chunk size 4, 8, ..., 2048 that is large enough has a free chunk. */
  ghost predicate ChunkFor(lists: seq<seq<nat>>, bytes: nat) {
    exists c: nat :: c < |lists| && c < 10 && bytes <= 4 * Pow2(c) && (c == 0 || 2 * Pow2(c) < bytes) && lists[c] != []
  }

  /** What `kmalloc` serves: up to 2048 bytes from a slab, perhaps from one more page; up to 4 MiB from pages. */
  ghost predicate Served(lists: seq<seq<nat>>, live: map<nat, Page>, n: nat, bytes: nat) {
    if 1 <= bytes <= 2048 then ChunkFor(lists, bytes) || PagesFor(live, n, bytes)
    else 2048 < bytes <= 0x40_0000 && PagesFor(live, n, bytes)
  }

  ghost predicate IsChunk(chunks: set<Extent>, at: nat) { exists e :: e in chunks && e.at == at }

  lemma ChunkHere(chunks: set<Extent>, e: Extent)
    requires e in chunks
    ensures IsChunk(chunks, e.at)
  {
  }

  lemma NoChunkHere(base: nat, n: nat, live: map<nat, Page>, t: seq<Pte>, s: Slab.State, sizes: seq<nat>, p: nat)
    requires Fits(base, n, live, t, s) && Slab.Inv(s, sizes) && Va(base, p) !in s.info
    ensures !IsChunk(Slab.Outstanding(s), Va(base, p))
  {
    hide Fits, Slab.Inv, Slab.Outstanding, Va;
    forall e | e in Slab.Outstanding(s) ensures e.at != Va(base, p) {
      NotAChunk(base, n, live, t, s, sizes, p, e.size);
      assert e == Extent(e.at, e.size);
    }
  }

  /** A request of more than half a page is served by the page allocator exactly with such a run. */
  lemma PagesIffServe(live: map<nat, Page>, n: nat, bytes: nat)
    requires 2048 < bytes
    ensures PagesFor(live, n, bytes) <==> CanServe(live, n, bytes)
  {
    hide Pow2, VacantRun;
    forall k: nat
      ensures BuddyAllocator.Serves(bytes, k) <==>
                k <= 10 && bytes <= 4096 * Pow2(k) && (k == 0 || 4096 * Pow2(k - 1) < bytes)
    {
    }
  }

  /** The rounded request falls into the same block size as the request itself. */
  lemma RoundedServe(bytes: nat, k: nat, j: nat)
    requires Qlib.LeastPow2(bytes, Pow2(k), k) && 2048 < bytes
    ensures BuddyAllocator.Serves(Pow2(k), j) <==> BuddyAllocator.Serves(bytes, j)
  {
    assert Pow2(12) == 4096 && Pow2(11) == 2048;
    Qlib.Pow2Add(j, 12);
    if j > 0 { Qlib.Pow2Add(j - 1, 12); }
    hide Pow2, Qlib.LeastPow2;
    SameSide(bytes, k, 11);
    SameSide(bytes, k, j + 12);
    SameSide(bytes, k, j + 11);
  }

  lemma RoundedCanServe(live: map<nat, Page>, n: nat, bytes: nat, k: nat)
    requires Qlib.LeastPow2(bytes, Pow2(k), k) && 2048 < bytes
    ensures CanServe(live, n, Pow2(k)) <==> CanServe(live, n, bytes)
  {
    hide BuddyAllocator.Serves, VacantRun, Pow2;
    forall j: nat ensures BuddyAllocator.Serves(Pow2(k), j) <==> BuddyAllocator.Serves(bytes, j) {
      RoundedServe(bytes, k, j);
    }
  }

  lemma PageForSlab(live: map<nat, Page>, n: nat, bytes: nat)
    requires 1 <= bytes <= 2048
    ensures PagesFor(live, n, bytes) <==> CanServe(live, n, PAGE_SIZE)
  {
    hide VacantRun;
    assert Pow2(0) == 1;
    assert forall k: nat :: BuddyAllocator.Serves(PAGE_SIZE, k) <==> k == 0;
  }

  lemma ChunkForSlab(lists: seq<seq<nat>>, bytes: nat, k: nat)
    requires Qlib.LeastPow2(bytes, Pow2(k), k) && 1 <= bytes <= 2048 && |lists| == 10
    ensures ChunkFor(lists, bytes) <==> exists lg: nat :: ListOf(Pow2(k), lg) && lists[lg - 2] != []
  {
    if ChunkFor(lists, bytes) {
      var c: nat :|
        c < |lists| && c < 10 && bytes <= 4 * Pow2(c) && (c == 0 || 2 * Pow2(c) < bytes) && lists[c] != [];
      ClassOfChunk(bytes, k, c);
      assert ListOf(Pow2(k), c + 2);
    }
    forall lg: nat | ListOf(Pow2(k), lg) && lists[lg - 2] != [] ensures ChunkFor(lists, bytes) {
      ClassOfChunk(bytes, k, lg - 2);
      assert lists[lg - 2] != [];
    }
  }

  lemma ClassOfChunk(bytes: nat, k: nat, c: nat)
    requires Qlib.LeastPow2(bytes, Pow2(k), k) && 1 <= bytes && c < 10
    ensures (bytes <= 4 * Pow2(c) && (c == 0 || 2 * Pow2(c) < bytes)) <==> ListOf(Pow2(k), c + 2)
  {
    assert Pow2(c + 2) == 4 * Pow2(c) && Pow2(c + 1) == 2 * Pow2(c);
    hide Pow2, Qlib.LeastPow2;
    SameSide(bytes, k, c + 2);
    SameSide(bytes, k, c + 1);
  }

  /** A request and its rounded size are on the same side of every power of two. */
  lemma SameSide(bytes: nat, k: nat, j: nat)
    requires Qlib.LeastPow2(bytes, Pow2(k), k)
    ensures bytes <= Pow2(j) <==> Pow2(k) <= Pow2(j)
  {
    hide Pow2;
    if k <= j { Pow2Monotone(k, j); }
    BelowNext(j, k);
    PowOrder(j, k);
  }

  /** Rounding keeps a request on its side of 2048 bytes. */
  lemma SmallRounded(bytes: nat, fixed: nat)
    requires 1 <= bytes <= 0x8000_0000 ==> exists k: nat :: k <= 31 && Qlib.LeastPow2(bytes, fixed, k)
    ensures 1 <= bytes <= 0x8000_0000 ==> (fixed <= 2048 <==> bytes <= 2048)
  {
    if 1 <= bytes <= 0x8000_0000 {
      var k: nat :| k <= 31 && Qlib.LeastPow2(bytes, fixed, k);
      assert Pow2(11) == 2048;
      SameSide(bytes, k, 11);
    }
  }

  /** The two ways of saying what can be served agree. */
  lemma ServedIffServable(lists: seq<seq<nat>>, live: map<nat, Page>, n: nat, bytes: nat)
    requires bytes < U32 && |lists| == 10
    ensures Served(lists, live, n, bytes) <==> Servable(lists, live, n, bytes)
  {
    if 1 <= bytes <= 0x8000_0000 {
      var k := Rounding(bytes);
      ServedAt(lists, live, n, bytes, k);
    } else {
      forall j: nat | j <= 31 ensures Pow2(j) <= 0x8000_0000 {
        Pow2Monotone(j, 31);
        Qlib.WordValues();
      }
    }
  }

  lemma Rounding(bytes: nat) returns (k: nat)
    requires 1 <= bytes <= 0x8000_0000
    ensures k <= 31 && Qlib.LeastPow2(bytes, Pow2(k), k)
  {
    k := 0;
    assert Pow2(0) == 1;
    Qlib.WordValues();
    while Pow2(k) < bytes
      invariant k <= 31 && (k == 0 || Pow2(k - 1) < bytes)
      decreases 31 - k
    {
      k := k + 1;
    }
  }

  lemma ServedAt(lists: seq<seq<nat>>, live: map<nat, Page>, n: nat, bytes: nat, k: nat)
    requires 1 <= bytes && k <= 31 && Qlib.LeastPow2(bytes, Pow2(k), k) && |lists| == 10
    ensures Served(lists, live, n, bytes) <==> Servable(lists, live, n, bytes)
  {
    hide CanServe, PagesFor, ChunkFor, ListOf, Pow2;
    forall j: nat | j <= 31 && Qlib.LeastPow2(bytes, Pow2(j), j) ensures j == k {
      LeastUnique(bytes, j, k);
    }
    SmallPower(bytes, k);
    if bytes <= 2048 {
      PageForSlab(live, n, bytes);
      ChunkForSlab(lists, bytes, k);
      ListExists(bytes, k);
    } else {
      PagesIffServe(live, n, bytes);
      RoundedCanServe(live, n, bytes, k);
      if bytes > 0x40_0000 { TooLarge(live, n, bytes); }
    }
  }

  lemma SmallPower(bytes: nat, k: nat)
    requires Qlib.LeastPow2(bytes, Pow2(k), k)
    ensures Pow2(k) <= SlabAllocator.SLAB_MAX <==> bytes <= 2048
  {
    assert Pow2(11) == 2048;
    SameSide(bytes, k, 11);
  }

  lemma ListExists(bytes: nat, k: nat)
    requires Qlib.LeastPow2(bytes, Pow2(k), k) && 1 <= bytes <= 2048
    ensures exists lg: nat :: ListOf(Pow2(k), lg)
    ensures forall lg: nat :: ListOf(Pow2(k), lg) ==> 2 <= lg < 12
  {
    assert Pow2(11) == 2048 && Pow2(2) == 4;
    BelowNext(11, k);
    if k <= 2 { Pow2Monotone(k, 2); }
    if k > 0 { PowOrder(k - 1, k); }
    assert ListOf(Pow2(k), if k < 2 then 2 else k);
  }

  lemma TooLarge(live: map<nat, Page>, n: nat, bytes: nat)
    requires bytes > 0x40_0000
    ensures !PagesFor(live, n, bytes)
  {
    forall k: nat | k <= 10 ensures 4096 * Pow2(k) <= 0x40_0000 {
      Pow2Monotone(k, 10);
      assert Pow2(10) == 1024;
    }
  }

  lemma LeastUnique(x: nat, j: nat, k: nat)
    requires Qlib.LeastPow2(x, Pow2(j), j) && Qlib.LeastPow2(x, Pow2(k), k)
    ensures j == k
  {
    BelowNext(j, k);
    BelowNext(k, j);
  }

  lemma BelowNext(j: nat, k: nat)
    ensures j < k ==> Pow2(j) <= Pow2(k - 1)
  {
    if j < k { Pow2Monotone(j, k - 1); }
  }

  lemma ServableMeans(lists: seq<seq<nat>>, live: map<nat, Page>, n: nat, bytes: nat, fixed: nat)
    requires 1 <= bytes <= 0x8000_0000 ==> exists k: nat :: k <= 31 && Qlib.LeastPow2(bytes, fixed, k)
    requires bytes == 0 || bytes > 0x8000_0000 ==> fixed == 0
    ensures Servable(lists, live, n, bytes) <==>
      fixed != 0 && (if fixed <= SlabAllocator.SLAB_MAX then SmallServable(lists, live, n, fixed)
                     else CanServe(live, n, fixed))
  {
    hide SmallServable, CanServe;
    if 1 <= bytes <= 0x8000_0000 {
      var k: nat :| k <= 31 && Qlib.LeastPow2(bytes, fixed, k);
      assert Pow2(k) >= 1;
      forall j: nat | j <= 31 && Qlib.LeastPow2(bytes, Pow2(j), j) ensures j == k {
        LeastUnique(bytes, j, k);
      }
    } else {
      forall j: nat | j <= 31 ensures Pow2(j) <= 0x8000_0000 {
        Pow2Monotone(j, 31);
        Qlib.WordValues();
      }
    }
  }

  lemma SmallMeans(lists: seq<seq<nat>>, live: map<nat, Page>, n: nat, size: nat, lg: nat)
    requires 1 <= size && 2 <= lg <= 11
    requires var want := if size < SlabAllocator.SLAB_MIN then SlabAllocator.SLAB_MIN else size;
      Pow2(lg) >= want && Pow2(lg - 1) < want
    ensures SmallServable(lists, live, n, size) <==>
              (lg - 2 < |lists| && lists[lg - 2] != []) || CanServe(live, n, PAGE_SIZE)
  {
    hide CanServe;
    SmallList(size, lg);
    forall j: nat | ListOf(size, j) ensures j == lg {
      SmallListUnique(size, j, lg);
    }
  }

  lemma NeededMeans(lists: seq<seq<nat>>, size: nat, lg: nat)
    requires 1 <= size && 2 <= lg <= 11
    requires var want := if size < SlabAllocator.SLAB_MIN then SlabAllocator.SLAB_MIN else size;
      Pow2(lg) >= want && Pow2(lg - 1) < want
    ensures ListOf(size, lg)
    ensures forall was, now :: (lg - 2 < |lists| && lists[lg - 2] != [] ==> now == was) ==>
              PagesAsNeeded(lists, was, now, size)
  {
    SmallList(size, lg);
    forall j: nat | ListOf(size, j) ensures j == lg {
      SmallListUnique(size, j, lg);
    }
  }

  lemma GaveChunkHere(was: set<Extent>, now: set<Extent>, at: nat, size: nat, lg: nat)
    requires ListOf(size, lg) && GaveOut(was, now, at, Pow2(lg))
    ensures GaveChunk(was, now, at, size)
  {
  }

  lemma SmallRegion(was: set<Extent>, now: set<Extent>, at: nat, bytes: nat, fixed: nat)
    requires exists k: nat :: k <= 31 && Qlib.LeastPow2(bytes, fixed, k)
    requires GaveChunk(was, now, at, fixed)
    ensures GaveRegion(was, now, at, bytes)
  {
    var k: nat :| k <= 31 && Qlib.LeastPow2(bytes, fixed, k);
    var lg: nat :| ListOf(fixed, lg) && GaveOut(was, now, at, Pow2(lg));
    hide GaveOut;
    assert Pow2(2) == 4;
    if k < 2 {
      Pow2Monotone(k, 1);
      BelowNext(2, lg);
    } else {
      Pow2Monotone(2, k);
      BelowNext(k, lg);
      BelowNext(lg, k);
      BelowNext(2, k);
      PowOrder(lg, k);
    }
  }

  lemma PowOrder(lg: nat, k: nat)
    ensures lg < k ==> Pow2(lg) < Pow2(k)
  {
    if lg < k {
      Pow2Monotone(lg + 1, k);
      assert Pow2(lg) >= 1;
    }
  }

  lemma LargeRegion(was: set<Extent>, now: set<Extent>, at: nat, bytes: nat, fixed: nat, j: nat)
    requires exists k: nat :: k <= 31 && Qlib.LeastPow2(bytes, fixed, k)
    requires fixed > SlabAllocator.SLAB_MAX && BuddyAllocator.Serves(fixed, j) && GaveOut(was, now, at, Bytes(j))
    ensures GaveRegion(was, now, at, bytes)
  {
    var k: nat :| k <= 31 && Qlib.LeastPow2(bytes, fixed, k);
    ServedExactly(k, j);
    hide GaveOut;
  }

  /** A power of two above half a page is served by a block of exactly that size. */
  lemma ServedExactly(k: nat, j: nat)
    requires BuddyAllocator.Serves(Pow2(k), j)
    ensures Bytes(j) == Pow2(k)
  {
    assert Pow2(12) == 4096 && Pow2(11) == 2048;
    Qlib.Pow2Add(j, 12);
    if j > 0 { Qlib.Pow2Add(j - 1, 12); }
    hide Pow2;
    PowOrder(j + 12, k);
    PowOrder(k, j + 12);
    PowOrder(k, j + 11);
  }

  lemma SmallList(size: nat, lg: nat)
    requires 1 <= size && 2 <= lg <= 11
    requires var want := if size < SlabAllocator.SLAB_MIN then SlabAllocator.SLAB_MIN else size;
      Pow2(lg) >= want && Pow2(lg - 1) < want
    ensures ListOf(size, lg)
  {
    assert Pow2(2) == 4;
    BelowNext(2, lg);
  }

  lemma SmallListUnique(size: nat, j: nat, lg: nat)
    requires ListOf(size, j) && ListOf(size, lg)
    ensures j == lg
  {
    BelowNext(j, lg);
    BelowNext(lg, j);
  }

  /** One region more is handed out: it begins at `at`, has `size` bytes and overlaps no other. */
  ghost predicate GaveOut(was: set<Extent>, now: set<Extent>, at: nat, size: nat) {
    var e := Extent(at, size);
    e !in was && now == was + {e} && forall f :: f in was ==> Apart(e, f)
  }

  /** A small request gets a chunk of the least size from 4 on. */
  ghost predicate GaveChunk(was: set<Extent>, now: set<Extent>, at: nat, size: nat) {
    exists lg: nat :: ListOf(size, lg) && GaveOut(was, now, at, Pow2(lg))
  }

  function RegionSize(p: nat): nat { if p < 4 then 4 else p }

  /** A request gets a region of the least power of two that holds it, but not below 4. */
  ghost predicate GaveRegion(was: set<Extent>, now: set<Extent>, at: nat, bytes: nat) {
    exists k: nat :: k <= 31 && Qlib.LeastPow2(bytes, Pow2(k), k) && GaveOut(was, now, at, RegionSize(Pow2(k)))
  }

  /** Large enough, and less than twice as large as asked for unless it is the smallest size. */
  predicate SnugFor(size: nat, bytes: nat) { bytes <= size && 4 <= size && (size == 4 || size < 2 * bytes) }

  lemma RegionSnug(was: set<Extent>, now: set<Extent>, at: nat, bytes: nat)
    requires GaveRegion(was, now, at, bytes)
    ensures exists e :: e in now - was && e.at == at && SnugFor(e.size, bytes)
  {
    var k: nat :| k <= 31 && Qlib.LeastPow2(bytes, Pow2(k), k) && GaveOut(was, now, at, RegionSize(Pow2(k)));
    var e := Extent(at, RegionSize(Pow2(k)));
    if k > 0 { assert Pow2(k) == 2 * Pow2(k - 1); }
    assert e in now - was && SnugFor(e.size, bytes);
  }

  /** The page allocator is only asked when the list of the size is empty. */
  ghost predicate PagesAsNeeded(lists: seq<seq<nat>>, was: map<nat, Page>, now: map<nat, Page>, size: nat) {
    forall lg: nat :: ListOf(size, lg) && lg - 2 < |lists| && lists[lg - 2] != [] ==> now == was
  }

  /** Exactly the region that begins at `at` is no longer handed out. */
  ghost predicate TookBack(was: set<Extent>, now: set<Extent>, at: nat) {
    exists e: Extent :: e in was && e.at == at && now == was - {e}
  }

  lemma TookBackHere(base: nat, live: map<nat, Page>, s: Slab.State, now: set<Extent>, e: Extent)
    requires e in Regions(base, live, s) && now == Regions(base, live, s) - {e}
    ensures TookBack(Regions(base, live, s), now, e.at)
  {
  }

  lemma LiveBlockAt(h: BuddyModel.Heap, p: nat)
    requires Inv(h) && p in Live(h.pages)
    ensures p < |h.pages| && Live(h.pages)[p] == h.pages[p] && h.pages[p].size / PAGE_SIZE == Pow2(Order(h.pages[p]))
    ensures p + Pow2(Order(h.pages[p])) <= |h.pages|
  {
    assert BlockAt(h.pages, p);
  }

  lemma GaveOutHere(base: nat, n: nat, live: map<nat, Page>, table: seq<Pte>, s: Slab.State, sizes: seq<nat>,
                    was: set<Extent>, e: Extent)
    requires Fits(base, n, live, table, s) && Slab.Inv(s, sizes)
    requires Regions(base, live, s) == was + {e} && e !in was
    ensures GaveOut(was, Regions(base, live, s), e.at, e.size)
  {
    forall f | f in was ensures Apart(e, f) {
      RegionsDisjoint(base, n, live, table, s, sizes, e, f);
    }
  }

  lemma Rounded(bytes: nat, fixed: nat)
    requires 1 <= bytes <= 0x8000_0000 ==> exists k: nat :: k <= 31 && Qlib.LeastPow2(bytes, fixed, k)
    requires bytes == 0 || bytes > 0x8000_0000 ==> fixed == 0
    ensures fixed == 0 || (bytes <= fixed < U32)
  {
    if 1 <= bytes <= 0x8000_0000 {
      var k: nat :| k <= 31 && Qlib.LeastPow2(bytes, fixed, k);
      Pow2Monotone(k, 31);
      Qlib.WordValues();
    }
  }

  /** `SLAB_INDEX`, before the subtraction. */
  method SlabList(want: nat, fixed: nat) returns (lg: nat)
    requires SlabAllocator.SLAB_MIN <= want <= SlabAllocator.SLAB_MAX
    requires exists k: nat :: k <= 31 && Qlib.LeastPow2(want, fixed, k)
    ensures 2 <= lg <= 11 && Pow2(lg) >= want && Pow2(lg - 1) < want
  {
    ghost var k: nat :| k <= 31 && Qlib.LeastPow2(want, fixed, k);
    SlabAllocator.ClassOf(want, fixed, k);
    lg := Qlib.Log2Loop(fixed);
    Log2OfPow2(k);
  }

  lemma ListOfSize(sizes: seq<nat>, want: nat, lg: nat)
    requires SlabAllocator.Builtin(sizes) && 2 <= lg <= 11 && Pow2(lg) >= want
    ensures lg - 2 < |sizes| && sizes[lg - 2] == Pow2(lg)
  {
  }

  lemma OnePage(k: nat)
    requires BuddyAllocator.Serves(PAGE_SIZE, k)
    ensures Bytes(k) == PAGE_SIZE
  {
  }

  lemma BlockDescriptor(ps: seq<Page>, p: nat, k: nat)
    requires p in Live(ps) && Live(ps)[p] == Page(true, Bytes(k), 1)
    ensures p < |ps| && ps[p].size / PAGE_SIZE == Pow2(k)
  {
  }
}
