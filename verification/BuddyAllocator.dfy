/**
 The buddy allocator itself (kernel/mm/page_alloc.c): an array of page descriptors and
 eleven free lists, changed in place. One contiguous region is managed. Page locks
 and the page cache fields of `struct page` are not part of the model.
 */
module BuddyAllocator {
  import opened Platform
  import opened Arith
  import opened Dyadic
  import opened Seqs
  import opened BuddyModel
  import opened BuddyBytes
  import Qlib

  /** A request of `bytes` is served by a block of order `k`; other requests fail an assertion. */
  ghost predicate Serves(bytes: nat, k: nat) {
    k <= MAX_ORDER && PAGE_SIZE / 2 < bytes <= Bytes(k) && (k == 0 || Bytes(k - 1) < bytes)
  }

  class Allocator {
    const pages: array<Page>
    var pageCnt: nat          // managed descriptors are pages[..pageCnt]
    var root: seq<seq<nat>>
    var addr: nat             // physical address of pages[0]
    var size: nat             // the 32-bit counter `allocator.size`
    ghost var freed: nat      // all bytes that `__free_page` has put back

    ghost predicate InBounds() reads this { pageCnt <= pages.Length }

    ghost function Heap(): Heap
      requires InBounds()
      reads this, pages
    {
      BuddyModel.Heap(pages[..pageCnt], root)
    }

    ghost predicate Valid()
      reads this, pages
    {
      InBounds() && Inv(Heap())
    }

    /** What `allocator.size` holds: no free block ever counts again. */
    ghost predicate Counted()
      reads this
    {
      CounterIs(size, freed, FreeBytes(root))
    }

    ghost function LiveBlocks(): map<nat, Page>
      requires InBounds()
      reads this, pages
    {
      Live(pages[..pageCnt])
    }

    /** `page_addr`. */
    function PageAddr(p: nat): (a: nat)
      reads this
    {
      addr + p * PAGE_SIZE
    }

    /** `get_page`: only page-aligned addresses from `addr` on have a descriptor. */
    function GetPage(a: nat): (r: Option<nat>)
      requires addr % PAGE_SIZE == 0
      reads this
      ensures r.Some? <==> a % PAGE_SIZE == 0 && a >= addr
      ensures r.Some? ==> PageAddr(r.value) == a
    {
      if a % PAGE_SIZE != 0 || a < addr then None else Some((a - addr) / PAGE_SIZE)
    }

    /** `get_buddy`: none for a block at the end of the region. */
    function GetBuddy(p: nat, cnt: nat): (r: Option<nat>)
      requires cnt >= 1 && p % cnt == 0
      reads this
    {
      var buddy := if (p / cnt) % 2 == 1 then p - cnt else p + cnt;
      if buddy < 0 || pageCnt <= buddy then None else Some(buddy)
    }

    lemma GetBuddyIsBuddy(p: nat, k: nat)
      requires Aligned(p, k)
      ensures p % Pow2(k) == 0
      ensures GetBuddy(p, Pow2(k)) == if Buddy(p, k) < pageCnt then Some(Buddy(p, k)) else None
    {
      AlignedIsMultiple(p, k);
    }

    method ListDel(k: nat, p: nat)
      requires k < |root|
      modifies `root
      ensures root == old(root)[k := Remove(old(root)[k], p)]
    {
      root := root[k := Remove(root[k], p)];
    }

    method ListAddPrev(k: nat, p: nat)
      requires k < |root|
      modifies `root
      ensures root == old(root)[k := old(root)[k] + [p]]
    {
      root := root[k := root[k] + [p]];
    }

    method SetPage(p: nat, pg: Page)
      requires p < pageCnt <= pages.Length
      modifies pages
      ensures pages[..pageCnt] == old(pages[..pageCnt])[p := pg]
    {
      pages[p] := pg;
    }

    /** Lines 47-53 of `page_setup`: one free block of order `k` at descriptor `page`. */
    method AddBlock(page: nat, k: nat)
      requires page + Pow2(k) <= pages.Length && k <= MAX_ORDER && BlankFrom(page)
      requires SetUp(pages[..page], root) && Aligned(page, k) && (k == MAX_ORDER || Aligned(page, k + 1))
      modifies this`root, pages
      ensures SetUp(pages[..page + Pow2(k)], root) && Aligned(page + Pow2(k), k)
      ensures BlankFrom(page + Pow2(k))
    {
      hide Inv, Bytes, Aligned, AllFree;
      ghost var h := BuddyModel.Heap(pages[..page], root);
      GrowKeeps(h, k);
      ElevenRoots(h);
      pages[page] := Page(true, Bytes(k), 0);
      ListAddPrev(k, page);
      assert pages[..page + Pow2(k)] == Grow(h, k).pages;
    }

    ghost predicate BlankFrom(page: nat)
      reads pages
    {
      forall i :: page <= i < pages.Length ==> pages[i] == BLANK
    }

    /** Lines 41-54 of `page_setup`: as many blocks of order `k` as fit into `left` bytes. */
    method AddBlocks(page: nat, left: nat, k: nat) returns (page': nat, left': nat)
      requires k <= MAX_ORDER && BlankFrom(page) && page * PAGE_SIZE + left <= pages.Length * PAGE_SIZE
      requires SetUp(pages[..page], root) && Aligned(page, k + 1)
      requires k == MAX_ORDER || left < Bytes(k + 1)
      modifies this`root, pages
      ensures page' * PAGE_SIZE + left' == page * PAGE_SIZE + left && left' < Bytes(k) && page' <= pages.Length
      ensures SetUp(pages[..page'], root) && Aligned(page', k) && BlankFrom(page')
    {
      hide Inv, Pow2, Aligned;
      BytesDouble(k);
      AlignedHalves(page, k);
      var orderSize := Bytes(k);
      var cnt := left / orderSize;
      left' := left % orderSize;
      page' := page;
      var j := 0;
      DivisionByTimes(left, orderSize);
      while j < cnt
        invariant j <= cnt && BlankFrom(page')
        invariant page' * PAGE_SIZE + Times(cnt - j, orderSize) + left' == page * PAGE_SIZE + left
        invariant page' <= pages.Length
        invariant SetUp(pages[..page'], root) && Aligned(page', k)
        invariant k == MAX_ORDER || (cnt <= 1 && (j == 0 ==> page' == page))
      {
        AddBlock(page', k);
        page' := page' + Pow2(k);
        j := j + 1;
      }
    }

    /** `page_setup` for a region of `bytes` bytes whose first `bytes / 4096` pages are to be managed. */
    method PageSetup(bytes: nat) returns (page: nat)
      requires bytes % PAGE_SIZE == 0 && bytes <= pages.Length * PAGE_SIZE && BlankFrom(0)
      requires root == seq(MAX_ORDER + 1, _ => [])
      modifies this`root, this`size, pages
      ensures page * PAGE_SIZE == bytes && SetUp(pages[..page], root)
      ensures size == (old(size) + bytes) % U32
    {
      page := 0;
      var left := bytes;
      var i := MAX_ORDER + 1;
      AlignedZero(i);
      while i > 0
        invariant 0 <= i <= MAX_ORDER + 1 && page <= pages.Length && BlankFrom(page)
        invariant SetUp(pages[..page], root) && Aligned(page, i)
        invariant 0 <= left && (i <= MAX_ORDER ==> left < Bytes(i))
        invariant page * PAGE_SIZE + left == bytes && size == old(size)
      {
        i := i - 1;
        page, left := AddBlocks(page, left, i);
      }
      assert Bytes(0) == PAGE_SIZE && left % PAGE_SIZE == 0;
      size := (size + page * PAGE_SIZE) % U32;
    }

    /**
     `pmm_init` for one free region: `reserved` descriptors, the region trimmed to whole pages.
     (`PAGE_FLOOR` rounds an address up and `PAGE_CEIL` rounds it down.)
     */
    constructor (reserved: nat, start: nat, bytes: nat)
      requires Lost(start) <= bytes && bytes / PAGE_SIZE <= reserved
      ensures Valid() && AllFree(Heap()) && LiveBlocks() == map[]
      ensures addr == start + Lost(start) && addr % PAGE_SIZE == 0
      ensures pageCnt == (bytes - Lost(start)) / PAGE_SIZE && size == pageCnt * PAGE_SIZE % U32
      ensures fresh(pages) && Counted() && freed == 0
    {
      hide Inv, AllFree, Live, ListBytes;
      pages := new Page[reserved](_ => BLANK);
      root := seq(MAX_ORDER + 1, _ => []);
      addr := start + Lost(start);
      size, freed := 0, 0;
      new;
      var trimmed := (bytes - Lost(start)) / PAGE_SIZE * PAGE_SIZE;
      pageCnt := PageSetup(trimmed);
      NothingLive(Heap());
      NothingFreed(pageCnt * PAGE_SIZE);
    }

    /** The search of `__alloc_page`: the first nonempty list from order `k` on. */
    method FindList(k: nat) returns (i: nat)
      requires |root| == MAX_ORDER + 1 && k <= MAX_ORDER
      ensures k <= i <= MAX_ORDER + 1
      ensures forall j :: k <= j < i ==> root[j] == []
      ensures i <= MAX_ORDER ==> root[i] != []
    {
      i := k;
      while i <= MAX_ORDER && root[i] == []
        invariant k <= i <= MAX_ORDER + 1
        invariant forall j :: k <= j < i ==> root[j] == []
      {
        i := i + 1;
      }
    }

    /** One round of the splitting loop: the upper half of the block in hand goes on list `j`. */
    method SplitOnce(p: nat, i: nat, j: nat, ghost live: map<nat, Page>)
      requires InBounds() && p < pageCnt && j < i <= MAX_ORDER && |root| == MAX_ORDER + 1
      requires BeingSplit(Heap(), p, i, j + 1, live)
      modifies this`root, pages
      ensures |root| == MAX_ORDER + 1 && BeingSplit(Heap(), p, i, j, live)
    {
      hide BeingSplit;
      var q := p + Pow2(j);
      SplitInHand(Heap(), p, i, j, live);
      SetPage(q, pages[q].(head := true, size := Bytes(j)));
      ListAddPrev(j, q);
    }

    /** The block taken from the list of order `i` is split down to order `k`. */
    method TakeAndSplit(p: nat, i: nat, k: nat)
      requires Valid() && k <= i <= MAX_ORDER && p in root[i]
      modifies this`root, pages
      ensures Valid()
      ensures LiveBlocks() == old(LiveBlocks())[p := Page(true, Bytes(k), 1)]
    {
      ghost var live := LiveBlocks();
      TakenInHand(Heap(), p, i);
      var j := i;
      while j > k
        invariant k <= j <= i && p < pageCnt && |root| == MAX_ORDER + 1
        invariant BeingSplit(Heap(), p, i, j, live)
      {
        j := j - 1;
        SplitOnce(p, i, j, live);
      }
      ListDel(i, p);
      SetPage(p, Page(true, Bytes(k), 1));
    }

    /** Lines 151-176 on a block found on list `i`, with the counter. */
    method Take(p: nat, i: nat, k: nat)
      requires Valid() && Counted() && k <= i <= MAX_ORDER && p in root[i]
      modifies this`root, this`size, pages
      ensures Valid() && Counted() && size == (old(size) + U32 - Bytes(k)) % U32
      ensures LiveBlocks() == old(LiveBlocks())[p := Page(true, Bytes(k), 1)]
    {
      ghost var h := Heap();
      ListedFree(h, p, i);
      SmallBytes(k);
      hide Inv, Live, CounterIs, ListBytes, Bytes, IsFree;
      TakeAndSplit(p, i, k);
      BytesTaken(h, Heap(), p, k);
      CounterTakes(size, freed, FreeBytes(h.root), Bytes(k));
      size := (size + U32 - Bytes(k)) % U32;
    }

    lemma ElevenLists()
      requires Valid()
      ensures InBounds() && Inv(Heap()) && |root| == 11
      ensures LiveBlocks() == Live(Heap().pages) && |Heap().pages| == pageCnt
      ensures Heap().root == root && MAX_ORDER == 10
    {
    }

    /**
     `__alloc_page`. `None` stands for a failed assertion (line 149 or 171), which stops the
     kernel. A request succeeds exactly when some aligned run of unallocated pages can hold it.
     */
    method AllocPage(bytes: nat) returns (r: Option<nat>)
      requires Valid() && Counted() && bytes < U32
      modifies this`root, this`size, pages
      ensures Valid() && Counted()
      ensures r.Some? <==> exists k: nat, s: nat :: Serves(bytes, k) && VacantRun(old(LiveBlocks()), pageCnt, s, k)
      ensures r.None? ==> Heap() == old(Heap()) && size == old(size)
      ensures r.Some? ==> exists k: nat ::
                && Serves(bytes, k)
                && VacantRun(old(LiveBlocks()), pageCnt, r.value, k)
                && LiveBlocks() == old(LiveBlocks())[r.value := Page(true, Bytes(k), 1)]
                && size == (old(size) + U32 - Bytes(k)) % U32
    {
      hide *;
      ElevenLists();
      var order := OrderOfRequest(bytes);
      if order.None? {
        return None;
      }
      var k := order.value;
      var i := FindList(k);
      ghost var h := Heap();
      if i > MAX_ORDER {
        NoBlockNoRun(h, k);
        ServesUniquely(bytes, k);
        return None;
      }
      var p := root[i][0];
      HeadOfFreeBlock(h, p, i, k);
      Take(p, i, k);
      r := Some(p);
      assert Serves(bytes, k) && VacantRun(old(LiveBlocks()), pageCnt, p, k);
    }

    /** The tests on the buddy at lines 204-208; `None` leaves the loop. */
    method MergePartner(page: nat, order: nat, ghost live: map<nat, Page>) returns (b: Option<nat>)
      requires InBounds() && BeingFreed(Heap(), page, order, live)
      ensures b.None? ==> NoMerge(Held(Heap(), page), page, order)
      ensures b.Some? ==> b.value == Buddy(page, order) && order < MAX_ORDER
      ensures b.Some? ==> IsFree(Held(Heap(), page).pages, b.value, order)
    {
      GetBuddyIsBuddy(page, order);
      MergeCondition(Heap(), page, order, live);
      b := GetBuddy(page, pages[page].size / PAGE_SIZE);
      if b.None? || pages[b.value].refCnt != 0 || pages[b.value].size != pages[page].size || order == MAX_ORDER {
        b := None;
      }
    }

    /** Lines 212-220: the pair becomes one block of twice the size. */
    method MergeBlocks(p: nat, b: nat, order: nat, ghost live: map<nat, Page>) returns (page: nat)
      requires InBounds() && BeingFreed(Heap(), p, order, live) && order < MAX_ORDER
      requires b == Buddy(p, order) && IsFree(Held(Heap(), p).pages, b, order)
      modifies this`root, pages
      ensures InBounds() && BeingFreed(Heap(), page, order + 1, live)
    {
      hide BeingFreed, Held, IsFree, Aligned, Buddy, Remove;
      MergeFreed(Heap(), p, order, live);
      ListDel(order, b);
      page := Min(p, b);
      var tmp := p + b - page;
      assert page + pages[page].size / PAGE_SIZE == tmp;
      SetPage(tmp, pages[tmp].(head := false));
      SetPage(page, pages[page].(size := 2 * pages[page].size));
    }

    /** The coalescing loop of `__free_page`, from the point where block `p` has lost its last reference. */
    method Coalesce(p: nat, k: nat, ghost live: map<nat, Page>)
      requires InBounds() && BeingFreed(Heap(), p, k, live)
      modifies this`root, pages
      ensures Valid() && LiveBlocks() == live
    {
      var page, order := p, k;
      while pages[page].refCnt == 0 && order <= MAX_ORDER
        invariant BeingFreed(Heap(), page, order, live)
        decreases MAX_ORDER - order
      {
        var buddy := MergePartner(page, order, live);
        if buddy.None? {
          FreedKeeps(Heap(), page, order, live);
          ListAddPrev(order, page);
          break;
        }
        page := MergeBlocks(page, buddy.value, order, live);
        order := order + 1;
      }
    }

    /**
     `__free_page`. `ok` is false where the source's assertions on the head flag and the
     reference count fail. `allocator.size` is not restored.
     */
    method FreePage(p: nat) returns (ok: bool)
      requires Valid() && Counted() && p < pageCnt
      modifies this`root, this`freed, pages
      ensures Valid() && Counted()
      ensures freed == old(freed) + if ok && old(pages[p].refCnt) == 1 then old(pages[p].size) else 0
      ensures ok <==> p in old(LiveBlocks())
      ensures !ok ==> Heap() == old(Heap())
      ensures ok && old(pages[p].refCnt) > 1 ==>
        root == old(root) && LiveBlocks() == old(LiveBlocks())[p := old(pages[p].(refCnt := pages[p].refCnt - 1))]
      ensures ok && old(pages[p].refCnt) == 1 ==> LiveBlocks() == old(LiveBlocks()) - {p}
    {
      hide BeingFreed, Inv, CounterIs, FreeBytes, Log2;
      ok := pages[p].refCnt > 0 && pages[p].head;
      if !ok { return; }
      ghost var h := Heap();
      DropReference(h, p);
      SetPage(p, pages[p].(refCnt := pages[p].refCnt - 1));
      if pages[p].refCnt > 0 { return; }
      var order := Qlib.Log2Loop(pages[p].size / PAGE_SIZE);
      Coalesce(p, order, Live(h.pages) - {p});
      BytesGiven(h, Heap(), p);
      CounterGives(size, freed, FreeBytes(h.root), h.pages[p].size);
      freed := freed + h.pages[p].size;
    }

    /** `allocator_size`: adds up the free lists; the assertion on each block's size does not fail. */
    method AllocatorSize() returns (sum: nat)
      requires Valid()
      ensures sum == FreeBytes(root) % U32
      ensures FreeBytes(root) + LiveBytes(LiveBlocks(), pageCnt) == pageCnt * PAGE_SIZE
    {
      Conservation(Heap());
      assert |root| == MAX_ORDER + 1;
      hide Inv, Bytes, LiveBytes;
      sum := 0;
      var j := 0;
      while j <= MAX_ORDER
        invariant j <= MAX_ORDER + 1 && sum == ListBytes(root, j) % U32
      {
        sum := AddList(sum, j);
        j := j + 1;
      }
    }

    /** The inner loop of `allocator_size`. */
    method AddList(start: nat, j: nat) returns (sum: nat)
      requires Valid() && j <= MAX_ORDER && |root| == MAX_ORDER + 1 && start == ListBytes(root, j) % U32
      ensures sum == ListBytes(root, j + 1) % U32
    {
      hide Inv, Bytes, ListBytes, Times;
      var orderSize, i := Bytes(j), 0;
      sum := start;
      ListBytesIs(root, j);
      ghost var acc := ListBytes(root, j);
      while i < |root[j]|
        invariant i <= |root[j]| && sum == acc % U32 && acc == ListBytes(root, j) + Times(i, orderSize)
      {
        ListedSize(Heap(), j, i);
        assert pages[root[j][i]].size == orderSize;
        TimesStep(i, orderSize);
        SumStep(acc, orderSize);
        sum := (sum + orderSize) % U32;
        acc := acc + orderSize;
        i := i + 1;
      }
    }
  }

  lemma SumStep(a: nat, b: nat)
    ensures (a % U32 + b) % U32 == (a + b) % U32
  {
  }

  lemma ListedSize(h: Heap, j: nat, i: nat)
    requires Inv(h) && j <= MAX_ORDER && i < |h.root[j]|
    ensures h.root[j][i] < |h.pages| && h.pages[h.root[j][i]].size == Bytes(j)
  {
    var p := h.root[j][i];
    assert p in h.root[j];
    assert BlockAt(h.pages, p);
  }

  lemma NothingFreed(free: nat)
    ensures CounterIs(free % U32, 0, free)
  {
  }

  lemma NothingLive(h: Heap)
    requires Inv(h) && AllFree(h)
    ensures Live(h.pages) == map[] && FreeBytes(h.root) == |h.pages| * PAGE_SIZE
  {
    Conservation(h);
    LiveFrame(map[], Live(h.pages), |h.pages|);
    NoneLive(|h.pages|);
  }

  lemma {:induction false} NoneLive(n: nat)
    ensures LiveBytes(map[], n) == 0
  {
    if n > 0 { NoneLive(n - 1); }
  }

  lemma ListedFree(h: Heap, p: nat, i: nat)
    requires Inv(h) && i <= MAX_ORDER && p in h.root[i]
    ensures p < |h.pages| && p !in Live(h.pages)
  {
    assert IsFree(h.pages, p, i);
  }

  lemma SmallBytes(k: nat)
    requires k <= MAX_ORDER
    ensures Bytes(k) < U32
  {
    Pow2Monotone(k, MAX_ORDER);
  }

  /** An allocation takes its block from the free bytes. */
  lemma BytesTaken(g: Heap, h: Heap, p: nat, k: nat)
    requires Inv(g) && Inv(h) && |g.pages| == |h.pages| && p < |g.pages| && p !in Live(g.pages)
    requires Live(h.pages) == Live(g.pages)[p := Page(true, Bytes(k), 1)]
    ensures FreeBytes(h.root) == FreeBytes(g.root) - Bytes(k)
  {
    hide *;
    Conservation(g);
    Conservation(h);
    LiveAdded(Live(g.pages), p, Page(true, Bytes(k), 1), |g.pages|);
  }

  /** Freeing the last reference puts the block back. */
  lemma BytesGiven(g: Heap, h: Heap, p: nat)
    requires Inv(g) && Inv(h) && |g.pages| == |h.pages| && p < |g.pages| && p in Live(g.pages)
    requires Live(h.pages) == Live(g.pages) - {p}
    ensures FreeBytes(h.root) == FreeBytes(g.root) + Live(g.pages)[p].size
  {
    hide *;
    Conservation(g);
    Conservation(h);
    LiveRemoved(Live(g.pages), p, |g.pages|);
  }

  /** The part of a region that lies before its first page boundary. */
  function Lost(start: nat): nat { (PAGE_SIZE - start % PAGE_SIZE) % PAGE_SIZE }

  /** `c * d` by repeated addition, as the loop consumes it. */
  function Times(c: nat, d: nat): nat {
    if c == 0 then 0 else d + Times(c - 1, d)
  }

  lemma TimesStep(c: nat, d: nat)
    ensures Times(c + 1, d) == Times(c, d) + d
  {
  }

  lemma ListBytesIs(root: seq<seq<nat>>, j: nat)
    requires j < |root|
    ensures ListBytes(root, j + 1) == ListBytes(root, j) + Times(|root[j]|, Bytes(j)) && Times(0, Bytes(j)) == 0
  {
    TimesIs(|root[j]|, Bytes(j));
  }

  lemma {:induction false} TimesIs(c: nat, d: nat)
    ensures Times(c, d) == c * d
  {
    if c > 0 {
      TimesIs(c - 1, d);
      AddOne(c - 1, d);
    }
  }

  lemma {:induction false} DivisionByTimes(left: nat, d: nat)
    requires d >= 1
    ensures left == Times(left / d, d) + left % d
    ensures left < 2 * d ==> left / d <= 1
  {
    if left >= d {
      DivisionByTimes(left - d, d);
      QuotientUnique(left, d, (left - d) / d + 1, (left - d) % d);
    }
  }

  ghost predicate SetUp(ps: seq<Page>, root: seq<seq<nat>>) {
    Inv(Heap(ps, root)) && AllFree(Heap(ps, root))
  }

  lemma {:induction false} AlignedZero(k: nat)
    ensures Aligned(0, k)
  {
    if k > 0 { AlignedZero(k - 1); }
  }

  /** The heap as it will be once block `p`, still on the list of order `i`, is handed out with order `j`. */
  ghost function InHand(h: Heap, p: nat, i: nat, j: nat): Heap
    requires p < |h.pages| && i < |h.root|
  {
    Heap(h.pages[p := Page(true, Bytes(j), 1)], h.root[i := Remove(h.root[i], p)])
  }

  /** Loop invariant of the splitting loop. */
  ghost predicate BeingSplit(h: Heap, p: nat, i: nat, j: nat, live: map<nat, Page>) {
    && p < |h.pages| && i < |h.root|
    && Inv(InHand(h, p, i, j)) && IsLive(InHand(h, p, i, j), p, j)
    && Live(InHand(h, p, i, j).pages) == live[p := Page(true, Bytes(j), 1)]
  }

  lemma TakenInHand(h: Heap, p: nat, i: nat)
    requires Inv(h) && i <= MAX_ORDER && p in h.root[i]
    ensures BeingSplit(h, p, i, i, Live(h.pages))
  {
    TakeKeeps(h, p, i);
    assert BlockAt(h.pages, p);
    assert InHand(h, p, i, i) == Take(h, p, i);
  }

  lemma SplitInHand(h: Heap, p: nat, i: nat, j: nat, live: map<nat, Page>)
    requires BeingSplit(h, p, i, j + 1, live) && j < i
    ensures var q := p + Pow2(j);
      && q < |h.pages| && !h.pages[q].head && j < |h.root|
      && BeingSplit(Heap(h.pages[q := h.pages[q].(head := true, size := Bytes(j))],
                         h.root[j := h.root[j] + [q]]), p, i, j, live)
  {
    hide Inv, Order, Live, Pow2;
    var q := p + Pow2(j);
    var g := InHand(h, p, i, j + 1);
    SplitKeeps(g, p, j);
    var h' := Heap(h.pages[q := h.pages[q].(head := true, size := Bytes(j))], h.root[j := h.root[j] + [q]]);
    assert Split(g, p, j).pages == InHand(h', p, i, j).pages;
    assert Split(g, p, j).root == InHand(h', p, i, j).root;
  }

  // ------------------------------------------------------------- allocation

  lemma BytesDouble(k: nat)
    ensures Bytes(k + 1) == 2 * Bytes(k) && Bytes(k) / PAGE_SIZE == Pow2(k)
  {
  }

  lemma BytesMonotone(a: nat, b: nat)
    requires a <= b
    ensures Bytes(a) <= Bytes(b)
  {
    Pow2Monotone(a, b);
  }

  lemma LargestBlock()
    ensures Bytes(MAX_ORDER) == 4 * 0x10_0000
  {
    Qlib.Pow2Add(5, 5);
    assert Pow2(5) == 32;
  }

  /** Rounding up: the order serves the request, or the page assertion at line 149 fails. */
  lemma RoundedOrder(bytes: nat, rounded: nat, j: nat)
    requires Qlib.LeastPow2(bytes, rounded, j) && bytes >= 1
    ensures j < 12 ==> rounded % PAGE_SIZE != 0 && bytes <= PAGE_SIZE / 2
    ensures j >= 12 ==> rounded == Bytes(j - 12) && bytes > PAGE_SIZE / 2 && (j == 12 || Bytes(j - 13) < bytes)
  {
    Qlib.WordValues();
    assert Pow2(12) == 2 * Pow2(11);
    if j < 12 {
      Pow2Monotone(j, 11);
    } else {
      Qlib.Pow2Add(j - 12, 12);
      if j > 12 {
        Qlib.Pow2Add(j - 13, 12);
        BytesMonotone(0, j - 13);
      }
    }
  }

  ghost predicate Accepted(rounded: nat) {
    0 < rounded <= 4 * 0x10_0000 && rounded % PAGE_SIZE == 0
  }

  /** The assertion at line 149 lets through exactly the requests that some order serves. */
  lemma RequestOrder(bytes: nat, rounded: nat)
    requires bytes < U32
    requires bytes == 0 || bytes > 0x8000_0000 ==> rounded == 0
    requires 1 <= bytes <= 0x8000_0000 ==> exists k: nat :: k <= 31 && Qlib.LeastPow2(bytes, rounded, k)
    ensures Accepted(rounded) ==> exists k: nat :: Serves(bytes, k) && rounded == Bytes(k)
    ensures !Accepted(rounded) ==> forall k: nat :: !Serves(bytes, k)
  {
    hide Pow2;
    LargestBlock();
    forall k: nat | Serves(bytes, k) ensures bytes <= Bytes(MAX_ORDER) {
      BytesMonotone(k, MAX_ORDER);
    }
    if 1 <= bytes <= 0x8000_0000 {
      var j: nat :| j <= 31 && Qlib.LeastPow2(bytes, rounded, j);
      RoundedOrder(bytes, rounded, j);
      if j > 22 {
        BytesMonotone(MAX_ORDER, j - 13);
        BytesMonotone(MAX_ORDER, j - 12);
      } else if j >= 12 {
        BytesMonotone(j - 12, MAX_ORDER);
        assert Serves(bytes, j - 12);
      }
    }
  }

  /** `fixSize`, the assertion at line 149 and `log2`: the order that serves a request, if any. */
  method OrderOfRequest(bytes: nat) returns (r: Option<nat>)
    requires bytes < U32
    ensures r.Some? ==> Serves(bytes, r.value) && r.value <= MAX_ORDER
    ensures r.None? ==> forall k: nat :: !Serves(bytes, k)
  {
    hide Serves, Pow2, Bytes, Log2, Qlib.LeastPow2;
    var rounded := Qlib.FixSize(bytes);
    RequestOrder(bytes, rounded);
    if rounded == 0 || rounded > 4 * 0x10_0000 || rounded % PAGE_SIZE != 0 {
      return None;
    }
    ghost var k: nat :| Serves(bytes, k) && rounded == Bytes(k);
    Log2OfPow2(k);
    BytesInPages(k);
    var order := Qlib.Log2Loop(rounded / PAGE_SIZE);
    ServesOrder(bytes, k);
    r := Some(order);
  }

  lemma BytesInPages(k: nat)
    ensures Bytes(k) / PAGE_SIZE == Pow2(k)
  {
  }

  lemma ServesOrder(bytes: nat, k: nat)
    requires Serves(bytes, k)
    ensures k <= MAX_ORDER
  {
  }

  lemma ServesUniquely(bytes: nat, k: nat)
    requires Serves(bytes, k)
    ensures forall j: nat :: Serves(bytes, j) ==> j == k
  {
    forall j: nat | Serves(bytes, j) ensures j == k {
      if k < j { BytesMonotone(k, j - 1); }
      if j < k { BytesMonotone(j, k - 1); }
    }
  }

  /** The first block of a list of order at least `k` starts with a vacant run of order `k`. */
  lemma HeadOfFreeBlock(h: Heap, p: nat, i: nat, k: nat)
    requires Inv(h) && k <= i <= MAX_ORDER && p in h.root[i]
    ensures VacantRun(Live(h.pages), |h.pages|, p, k)
  {
    FreeBlockIsVacant(h.pages, p, i);
    AlignedDown(p, k, i);
    Pow2Monotone(k, i);
  }

  lemma RunHasBlock(h: Heap, s: nat, k: nat)
    requires Inv(h) && k <= MAX_ORDER && VacantRun(Live(h.pages), |h.pages|, s, k)
    ensures exists j :: k <= j <= MAX_ORDER && h.root[j] != []
  {
    VacantRunInBlock(h.pages, s, k);
    var o := Owner(h.pages, s);
    assert BlockAt(h.pages, o);
    assert o in h.root[Order(h.pages[o])];
  }

  lemma NoBlockNoRun(h: Heap, k: nat)
    requires Inv(h) && k <= MAX_ORDER
    requires forall j :: k <= j <= MAX_ORDER ==> h.root[j] == []
    ensures forall s: nat :: !VacantRun(Live(h.pages), |h.pages|, s, k)
  {
    if s: nat :| VacantRun(Live(h.pages), |h.pages|, s, k) {
      RunHasBlock(h, s, k);
    }
  }

  // ----------------------------------------------------------------- freeing

  /** The heap with the block that is being freed still counted as allocated. */
  ghost function Held(h: Heap, p: nat): Heap
    requires p < |h.pages|
  {
    Heap(h.pages[p := h.pages[p].(refCnt := 1)], h.root)
  }

  /** Loop invariant of the coalescing loop: `live` is what will remain allocated. */
  ghost predicate BeingFreed(h: Heap, p: nat, k: nat, live: map<nat, Page>) {
    && p < |h.pages| && k <= MAX_ORDER && h.pages[p] == Page(true, Bytes(k), 0) && Aligned(p, k)
    && Inv(Held(h, p)) && IsLive(Held(h, p), p, k)
    && p !in live && Live(Held(h, p).pages) == live[p := Page(true, Bytes(k), 1)]
  }

  lemma DropReference(h: Heap, p: nat)
    requires Inv(h) && p < |h.pages| && h.pages[p].head && h.pages[p].refCnt > 0
    ensures h.pages[p].size / PAGE_SIZE == Pow2(Order(h.pages[p])) < 0x1_0000
    ensures var g := Heap(h.pages[p := h.pages[p].(refCnt := h.pages[p].refCnt - 1)], h.root);
      if h.pages[p].refCnt > 1 then Inv(g) && Live(g.pages) == Live(h.pages)[p := g.pages[p]]
      else BeingFreed(g, p, Order(h.pages[p]), Live(h.pages) - {p})
  {
    assert BlockAt(h.pages, p);
    LargestBlock();
    Pow2Monotone(Order(h.pages[p]), MAX_ORDER);
    DroppedReference(h, p);
  }

  lemma DroppedReference(h: Heap, p: nat)
    requires Inv(h) && p < |h.pages| && h.pages[p].head && h.pages[p].refCnt > 0 && BlockAt(h.pages, p)
    ensures var g := Heap(h.pages[p := h.pages[p].(refCnt := h.pages[p].refCnt - 1)], h.root);
      if h.pages[p].refCnt > 1 then Inv(g) && Live(g.pages) == Live(h.pages)[p := g.pages[p]]
      else BeingFreed(g, p, Order(h.pages[p]), Live(h.pages) - {p})
  {
    hide Inv, Aligned, Bytes, Order;
    var g := Heap(h.pages[p := h.pages[p].(refCnt := h.pages[p].refCnt - 1)], h.root);
    if h.pages[p].refCnt > 1 {
      StillHeld(h, p);
    } else {
      assert Held(g, p) == h;
      assert Live(h.pages)[p] == h.pages[p];
    }
  }

  lemma StillHeld(h: Heap, p: nat)
    requires Inv(h) && p < |h.pages| && h.pages[p].head && h.pages[p].refCnt > 1
    ensures var g := Heap(h.pages[p := h.pages[p].(refCnt := h.pages[p].refCnt - 1)], h.root);
      Inv(g) && Live(g.pages) == Live(h.pages)[p := g.pages[p]]
  {
    var g := Heap(h.pages[p := h.pages[p].(refCnt := h.pages[p].refCnt - 1)], h.root);
    RetaggedTiled(h.pages, p, h.pages[p].refCnt - 1);
    assert forall i: nat, j :: IsFree(g.pages, i, j) <==> IsFree(h.pages, i, j);
  }

  /** The three tests of the loop decide whether the buddy is a free block of the same order. */
  lemma MergeCondition(h: Heap, p: nat, k: nat, live: map<nat, Page>)
    requires BeingFreed(h, p, k, live)
    ensures h.pages[p].size / PAGE_SIZE == Pow2(k)
    ensures var b := Buddy(p, k);
      k < MAX_ORDER && b < |h.pages| ==>
        (IsFree(Held(h, p).pages, b, k) <==> h.pages[b].refCnt == 0 && h.pages[b].size == h.pages[p].size)
  {
    var g := Held(h, p);
    var b := Buddy(p, k);
    BuddyHalves(p, k);
    if k < MAX_ORDER && b < |h.pages| {
      BuddyIsHead(g.pages, p);
      assert BlockAt(g.pages, b);
      if h.pages[b].size == Bytes(k) { OrderOfBytes(h.pages[b], k); }
    }
  }

  lemma FreedKeeps(h: Heap, p: nat, k: nat, live: map<nat, Page>)
    requires BeingFreed(h, p, k, live) && NoMerge(Held(h, p), p, k)
    ensures var g := Heap(h.pages, h.root[k := h.root[k] + [p]]); Inv(g) && Live(g.pages) == live
  {
    ReleaseKeeps(Held(h, p), p, k);
    assert Release(Held(h, p), p, k).pages == h.pages;
  }

  lemma FreeBlockSize(h: Heap, b: nat, k: nat)
    requires Inv(h) && IsFree(h.pages, b, k)
    ensures h.pages[b].size == Bytes(k)
  {
    assert BlockAt(h.pages, b);
  }

  lemma MergeFreed(h: Heap, p: nat, k: nat, live: map<nat, Page>)
    requires BeingFreed(h, p, k, live) && k < MAX_ORDER && IsFree(Held(h, p).pages, Buddy(p, k), k)
    ensures var b := Buddy(p, k); var m := Min(p, b); var t := p + b - m;
      && k < |h.root| && t == m + Pow2(k) < |h.pages| && h.pages[m].size == Bytes(k)
      && BeingFreed(Heap(h.pages[t := h.pages[t].(head := false)][m := h.pages[m].(size := 2 * Bytes(k))],
                         h.root[k := Remove(h.root[k], b)]), m, k + 1, live)
  {
    hide Tiled, Listed, Coalesced, Order, Bytes, Pow2, Aligned, Buddy;
    BytesDouble(k);
    var b := Buddy(p, k);
    var m := Min(p, b);
    var t := p + b - m;
    var g := Held(h, p);
    BuddyHalves(p, k);
    MergeKeeps(g, p, b, k);
    FreeBlockSize(g, b, k);
    ElevenRoots(g);
    var h' := Heap(h.pages[t := h.pages[t].(head := false)][m := h.pages[m].(size := 2 * Bytes(k))],
                   h.root[k := Remove(h.root[k], b)]);
    assert Merge(g, p, b, k).pages == Held(h', m).pages;
    assert b !in Live(g.pages);
  }
}
