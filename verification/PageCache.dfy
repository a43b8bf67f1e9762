/**
 The page cache of kernel/fs/writeback.c: cached pages in a list, a FIFO of dirty pages
 and a disk. The cache refines a plain map from sectors to contents. Each operation is one
 atomic step; a disk transfer (`page_rw` with its interrupt) is part of the step that
 waits for it.
 */
module PageCache {
  import opened Platform
  import opened Seqs
  import LfQueue

  type Page = nat
  type Sector = nat
  type Data = seq<nat>

  const EXPIRES: nat := 30 * 1000     // CACHE_EXPIRES * 1000, compared with seconds
  const U64: nat := 0x1_0000_0000_0000_0000

  datatype Entry = Entry(sector: Sector, dirty: bool, valid: bool, stamp: nat, data: Data)

  /** `PG_DIRTY` and `PG_VALID`. */
  datatype Flags = Flags(dirty: bool, valid: bool)

  ghost predicate Cached(pages: map<Page, Entry>, s: Sector) { exists q :: q in pages && pages[q].sector == s }

  /** One page per sector, and the disk holds what a clean valid page holds. */
  ghost predicate Coherent(pages: map<Page, Entry>, disk: map<Sector, Data>) {
    && (forall p, q :: p in pages && q in pages && pages[p].sector == pages[q].sector ==> p == q)
    && (forall p :: p in pages ==> pages[p].sector in disk && (pages[p].dirty ==> pages[p].valid))
    && (forall p :: p in pages && pages[p].valid && !pages[p].dirty ==> disk[pages[p].sector] == pages[p].data)
  }

  ghost predicate Uncached(pages: map<Page, Entry>, s: Sector) {
    forall p :: p in pages && pages[p].sector == s ==> !pages[p].valid
  }

  /** The content of each sector: its valid cached page, or else the disk. */
  ghost predicate Represents(pages: map<Page, Entry>, disk: map<Sector, Data>, content: map<Sector, Data>) {
    && content.Keys == disk.Keys
    && (forall p :: p in pages && pages[p].sector in disk && pages[p].valid ==>
          content[pages[p].sector] == pages[p].data)
    && (forall s :: s in disk && Uncached(pages, s) ==> content[s] == disk[s])
  }

  ghost predicate Listed(list: seq<Page>, queue: seq<Page>, pages: map<Page, Entry>) {
    && NoDup(list) && (forall p :: p in list <==> p in pages)
    && (forall p :: p in queue <==> p in pages && pages[p].dirty)
  }

  class Cache {
    var list: seq<Page>
    var pages: map<Page, Entry>
    const dirty: LfQueue.Queue
    var disk: map<Sector, Data>
    ghost var content: map<Sector, Data>

    ghost predicate Valid()
      reads this, dirty
    {
      && dirty.Valid() && 0 !in pages && dirty.dummy !in pages
      && Listed(list, dirty.contents, pages) && Coherent(pages, disk) && Represents(pages, disk, content)
    }

    /** `page_cache_init`, with the dirty queue's dummy node at `dummy`. */
    constructor (disk: map<Sector, Data>, dummy: Page)
      requires dummy != 0
      ensures Valid() && content == disk && this.disk == disk && pages == map[] && list == []
      ensures fresh(dirty) && dirty.contents == [] && dirty.dummy == dummy
    {
      list, pages, this.disk, content := [], map[], disk, disk;
      dirty := new LfQueue.Queue(dummy);
    }

    /**
     `page_get`: the cached page of a sector, or a new one. `frame` is the page that `__alloc_page`
     would return, `garbage` what that frame holds, and `left` its two cache flags: they are not
     cleared when a page is freed or taken again. The cache stays in order exactly when the frame
     brings no dirty flag, and a valid flag only with the right content.
     */
    method PageGet(sector: Sector, frame: Page, garbage: Data, left: Flags) returns (p: Page)
      requires Valid() && sector % 8 == 0 && sector in disk
      requires frame !in pages && frame != 0 && frame != dirty.dummy
      modifies this`list, this`pages
      ensures p in pages && pages[p].sector == sector
      ensures if Cached(old(pages), sector)
              then Valid() && pages == old(pages) && list == old(list)
              else
                && p == frame && list == old(list) + [p]
                && pages == old(pages)[p := Entry(sector, left.dirty, left.valid, 0, garbage)]
                && (Valid() <==> !left.dirty && (left.valid ==> garbage == disk[sector]))
    {
      hide Coherent, Represents;
      var i := 0;
      while i < |list|
        invariant 0 <= i <= |list| && forall j :: 0 <= j < i ==> pages[list[j]].sector != sector
      {
        if pages[list[i]].sector == sector {
          return list[i];
        }
        i := i + 1;
      }
      p := frame;
      NewPage(pages, disk, content, p, Entry(sector, left.dirty, left.valid, 0, garbage));
      AppendSpec(list, p);
      pages := pages[p := Entry(sector, left.dirty, left.valid, 0, garbage)];
      list := list + [p];
    }

    /** `page_rw` with `disk_isr`: a dirty page is written, any other page is read; then it moves to the front. */
    method PageRw(p: Page, now: nat)
      requires Listed0(list, pages) && p in pages && Coherent(pages, disk) && Represents(pages, disk, content)
      modifies this`list, this`pages, this`disk
      ensures Listed0(list, pages) && Coherent(pages, disk) && Represents(pages, disk, content)
      ensures list == [p] + Remove(old(list), p)
      ensures var e := old(pages)[p];
        && disk == (if e.dirty then old(disk)[e.sector := e.data] else old(disk))
        && pages == old(pages)[p := Entry(e.sector, false, true, now % U32, disk[e.sector])]
    {
      RwKeeps(pages, disk, content, p, now);
      var e := pages[p];
      if e.dirty {
        disk := disk[e.sector := e.data];
      }
      pages := pages[p := Entry(e.sector, false, true, now % U32, disk[e.sector])];
      RemoveSpec(list, p);
      list := [p] + Remove(list, p);
    }

    /** `page_read`: afterwards the page holds the content of its sector. */
    method PageRead(p: Page, now: nat)
      requires Valid() && p in pages
      modifies this`list, this`pages, this`disk
      ensures Valid() && disk == old(disk)
      ensures pages.Keys == old(pages).Keys && forall q :: q in pages && q != p ==> pages[q] == old(pages)[q]
      ensures pages[p].valid && pages[p].sector == old(pages)[p].sector && pages[p].data == content[pages[p].sector]
    {
      if pages[p].valid {
        return;
      }
      PageRw(p, now);
    }

    /** `page_read_no`: the page of a sector, filled with its content; a new frame has its cache flags clear. */
    method ReadSector(sector: Sector, now: nat) returns (p: Page)
      requires Valid() && sector % 8 == 0 && sector in disk
      modifies this`list, this`pages, this`disk
      ensures Valid() && disk == old(disk) && content == old(content) && dirty.contents == old(dirty.contents)
      ensures p in pages && pages[p].sector == sector && sector in content && pages[p].data == content[sector]
      ensures forall q :: q in old(pages) ==> q in pages && (q != p ==> pages[q] == old(pages)[q])
    {
      hide Coherent, Represents, Listed;
      FrameExists(pages.Keys + {0, dirty.dummy});
      var frame: Page :| frame !in pages && frame != 0 && frame != dirty.dummy;
      var garbage: Data := *;
      p := PageGet(sector, frame, garbage, Flags(false, false));
      PageRead(p, now);
      SectorCovered(pages, disk, content, p);
    }

    /** A change of the page's data under its lock, followed by `mark_page_dirty`. */
    method WriteAndMark(p: Page, data: Data)
      requires Valid() && p in pages
      modifies this`pages, this`content, dirty
      ensures Valid() && content == old(content)[old(pages)[p].sector := data]
      ensures pages == old(pages)[p := Entry(old(pages)[p].sector, true, true, old(pages)[p].stamp, data)]
    {
      hide Coherent, Represents;
      var e := pages[p];
      WriteKeeps(pages, disk, content, p, data);
      if !e.dirty {
        dirty.Put(p);
      }
      pages := pages[p := Entry(e.sector, true, true, e.stamp, data)];
      content := content[e.sector := data];
    }

    /** `flush_pages`: the queue is drained, and then the disk holds the content of every sector. */
    method FlushPages(now: nat)
      requires Valid()
      modifies this`list, this`pages, this`disk, dirty
      ensures Valid() && dirty.contents == [] && disk == content
      ensures pages.Keys == old(pages).Keys && forall p :: p in pages ==> !pages[p].dirty
    {
      hide Coherent, Represents, Listed0, LfQueue.Follows;
      FlushStart(list, dirty.contents, pages);
      var node := NextDirty();
      while node != LfQueue.NULL
        invariant Flushing(node) && pages.Keys == old(pages).Keys
        decreases |dirty.contents| + if node == LfQueue.NULL then 0 else 1
      {
        assert pages[node].dirty;
        PageRw(node, now);
        node := NextDirty();
      }
      ListedClean(list, pages);
      AllClean(pages, disk, content);
    }

    /**
     `page_recycle` of `bytes`: of the clean pages that have expired, the least recently used are
     dropped. A multiple of the page size counts them; any other number never reaches zero in
     32-bit arithmetic, so that all of them are dropped.
     */
    method PageRecycle(bytes: nat, now: nat) returns (ghost victims: set<Page>)
      requires Valid() && bytes < U32 && now < U64
      modifies this`list, this`pages
      ensures Valid() && content == old(content)
      ensures pages == old(pages) - victims && victims <= ExpiredPages(old(pages), now)
      ensures |victims| == Quota(bytes, |ExpiredPages(old(pages), now)|)
      ensures bytes % 4096 == 0 && |victims| < |ExpiredPages(old(pages), now)| ==> 4096 * |victims| == bytes
      ensures bytes % 4096 == 0 ==> 4096 * |victims| <= bytes
      ensures bytes % 4096 != 0 ==> victims == ExpiredPages(old(pages), now)
      ensures forall p, q :: p in victims && q in ExpiredPages(old(pages), now) - victims ==> Precedes(old(list), q, p)
      ensures forall p :: p in old(pages) && Recent(old(pages)[p], now) ==> p in pages
    {
      hide Coherent, Represents, Chosen, Remaining, ExpiredPages, Expired, Recent, Quota, NoDup, Precedes;
      var left: nat := bytes;
      var order := list;
      var i: nat := |order|;
      victims := {};
      ghost var all := ExpiredPages(old(pages), now);
      ChosenStart(order, old(pages), now);
      RemainingStart(bytes);
      while i > 0 && left > 0
        invariant i <= |order| && Valid() && content == old(content)
        invariant pages == old(pages) - victims && Chosen(order, i, all, victims)
        invariant Remaining(bytes, |victims|, left)
      {
        i := i - 1;
        var p := order[i];
        ChosenStep(order, i, all, victims);
        Candidate(old(pages), victims, p, now);
        if Expired(pages[p], now) {
          Evict(p);
          MinusMore(old(pages), victims, p);
          RemainingStep(bytes, |victims|, left);
          victims := victims + {p};
          left := (left + U32 - PAGE_SIZE) % U32;
        }
      }
      RecentKept(old(pages), now);
      ChosenEnd(order, i, all, victims);
      QuotaReached(bytes, all, victims, left);
      QuotaMeans(bytes, all, victims);
    }

    /** `recycle` as far as the list is concerned. */
    method Evict(p: Page)
      requires Valid() && p in pages && !pages[p].dirty
      modifies this`list, this`pages
      ensures Valid() && pages == old(pages) - {p} && list == Remove(old(list), p)
    {
      EvictKeeps(pages, disk, content, p);
      RemoveSpec(list, p);
      list := Remove(list, p);
      pages := pages - {p};
    }

    /** `lfQueue_get` on the dirty queue. */
    method NextDirty() returns (node: Page)
      requires dirty.Valid() && 0 !in pages && dirty.dummy !in pages
      requires forall p :: p in pages && pages[p].dirty <==> p in dirty.contents
      modifies dirty
      ensures dirty.Valid() && (node == 0 ==> dirty.contents == [])
      ensures node != 0 ==> node in pages && node !in dirty.contents
      ensures forall p :: p in pages && pages[p].dirty <==> p in dirty.contents || (p == node && node != 0)
      ensures |dirty.contents| + (if node == 0 then 0 else 1) == old(|dirty.contents|)
    {
      HeadApart(dirty.dummy, dirty.contents);
      node := dirty.Get();
    }

    /** Loop invariant of `flush_pages`: `node` has left the queue and is about to be written. */
    ghost predicate Flushing(node: Page)
      reads this, dirty
    {
      && dirty.Valid() && 0 !in pages && dirty.dummy !in pages && Listed0(list, pages)
      && Coherent(pages, disk) && Represents(pages, disk, content)
      && (node != 0 ==> node in pages && node !in dirty.contents)
      && (node == 0 ==> dirty.contents == [])
      && (forall p :: p in pages && pages[p].dirty <==> p in dirty.contents || (p == node && node != 0))
    }
  }

  /** A page for a sector that has none yet. */
  lemma NewPage(pages: map<Page, Entry>, disk: map<Sector, Data>, content: map<Sector, Data>, p: Page, e: Entry)
    requires p !in pages && e.sector in disk && !Cached(pages, e.sector)
    requires Coherent(pages, disk) && Represents(pages, disk, content)
    ensures var pages' := pages[p := e];
      !e.dirty ==>
        ((Coherent(pages', disk) && Represents(pages', disk, content)) <==> (e.valid ==> e.data == disk[e.sector]))
  {
    var pages' := pages[p := e];
    assert pages'[p] == e;
    assert Uncached(pages, e.sector);
    forall s | s in disk && Uncached(pages', s) ensures content[s] == disk[s] {
      assert Uncached(pages, s) by {
        forall q | q in pages && pages[q].sector == s ensures !pages[q].valid { assert pages'[q] == pages[q]; }
      }
    }
  }

  /** A frame that held sector 0, dropped and taken for sector 8, is believed to hold sector 8. */
  lemma RecycledFrameIsStale()
    ensures var disk, pages := map[0 := [1], 8 := [2]], map[7 := Entry(0, false, true, 0, [1])];
      && Coherent(pages, disk) && Represents(pages, disk, disk) && Expired(pages[7], EXPIRES)
      && !Coherent((pages - {7})[7 := Entry(8, false, true, 0, [1])], disk)
  {
    var disk, pages := map[0 := [1], 8 := [2]], map[7 := Entry(0, false, true, 0, [1])];
    var pages' := (pages - {7})[7 := Entry(8, false, true, 0, [1])];
    assert pages'[7].valid && disk[pages'[7].sector] != pages'[7].data;
  }

  /** The page allocator always has another page. */
  lemma FrameExists(taken: set<Page>)
    ensures exists f: Page :: f !in taken
  {
    var b := AboveAll(taken);
    assert b !in taken;
  }

  lemma {:induction false} AboveAll(s: set<Page>) returns (b: nat)
    ensures forall x :: x in s ==> x < b
  {
    if s == {} { return 0; }
    var x :| x in s;
    var c := AboveAll(s - {x});
    b := if c > x then c else x + 1;
    forall y | y in s ensures y < b {
      if y != x { assert y in s - {x}; }
    }
  }

  lemma SectorCovered(pages: map<Page, Entry>, disk: map<Sector, Data>, content: map<Sector, Data>, p: Page)
    requires p in pages && Coherent(pages, disk) && Represents(pages, disk, content)
    ensures pages[p].sector in content
  {
  }

  ghost predicate Listed0(list: seq<Page>, pages: map<Page, Entry>) {
    NoDup(list) && forall p :: p in list <==> p in pages
  }

  ghost function AfterRw(pages: map<Page, Entry>, disk: map<Sector, Data>, p: Page, now: nat)
    : (map<Page, Entry>, map<Sector, Data>)
    requires p in pages && pages[p].sector in disk
  {
    var e := pages[p];
    var d := if e.dirty then disk[e.sector := e.data] else disk;
    (pages[p := Entry(e.sector, false, true, now % U32, d[e.sector])], d)
  }

  /** A transfer leaves the content of every sector as it was. */
  lemma RwKeeps(pages: map<Page, Entry>, disk: map<Sector, Data>, content: map<Sector, Data>, p: Page, now: nat)
    requires p in pages && Coherent(pages, disk) && Represents(pages, disk, content)
    ensures var (pages', disk') := AfterRw(pages, disk, p, now);
            Coherent(pages', disk') && Represents(pages', disk', content)
  {
    var e := pages[p];
    var (pages', disk') := AfterRw(pages, disk, p, now);
    assert content[e.sector] == disk'[e.sector] by {
      if !e.valid { assert Uncached(pages, e.sector); }
    }
    forall s | s in disk' && Uncached(pages', s) ensures content[s] == disk'[s] {
      assert pages'[p].sector == e.sector;
      assert s != e.sector;
      assert Uncached(pages, s) by {
        forall q | q in pages && pages[q].sector == s ensures !pages[q].valid { assert pages'[q] == pages[q]; }
      }
    }
  }

  lemma WriteKeeps(pages: map<Page, Entry>, disk: map<Sector, Data>, content: map<Sector, Data>, p: Page, data: Data)
    requires p in pages && Coherent(pages, disk) && Represents(pages, disk, content)
    ensures var e := pages[p]; var pages' := pages[p := Entry(e.sector, true, true, e.stamp, data)];
      Coherent(pages', disk) && Represents(pages', disk, content[e.sector := data])
  {
    var e := pages[p];
    var pages' := pages[p := Entry(e.sector, true, true, e.stamp, data)];
    forall s | s in disk && Uncached(pages', s) ensures s != e.sector && Uncached(pages, s) {
      assert pages'[p].sector == e.sector;
      forall q | q in pages && pages[q].sector == s ensures !pages[q].valid { assert pages'[q] == pages[q]; }
    }
  }

  /** When no page is dirty, the disk holds the content of every sector. */
  lemma AllClean(pages: map<Page, Entry>, disk: map<Sector, Data>, content: map<Sector, Data>)
    requires Coherent(pages, disk) && Represents(pages, disk, content) && forall p :: p in pages ==> !pages[p].dirty
    ensures disk == content
  {
    forall s | s in disk ensures disk[s] == content[s] {
      if !Uncached(pages, s) {
        var p :| p in pages && pages[p].sector == s && pages[p].valid;
        assert disk[pages[p].sector] == pages[p].data;
      }
    }
  }

  lemma HeadApart(d: Page, s: seq<Page>)
    requires NoDup([d] + s)
    ensures s != [] ==> s[0] !in s[1..] && forall p :: p in s <==> p == s[0] || p in s[1..]
  {
    if s != [] {
      LfQueue.TailNoDup(d, s);
      FirstApart(s[0], s[1..]);
    }
  }

  lemma FlushStart(list: seq<Page>, queue: seq<Page>, pages: map<Page, Entry>)
    requires Listed(list, queue, pages)
    ensures Listed0(list, pages) && forall p :: p in pages && pages[p].dirty <==> p in queue
  {
  }

  lemma ListedClean(list: seq<Page>, pages: map<Page, Entry>)
    requires Listed0(list, pages) && forall p :: p in pages ==> !pages[p].dirty
    ensures Listed(list, [], pages)
  {
  }

  /** Lines 291-292: clean and unused for long enough. The stored time has 32 bits, the subtraction 64. */
  predicate Expired(e: Entry, now: nat) { !e.dirty && (now + U64 - e.stamp % U32) % U64 >= EXPIRES }

  /**
   A clean page is a candidate exactly when its last transfer is 30000 seconds or more ago, or seems to lie
   in the future.
   */
  lemma ExpiredMeans(e: Entry, now: nat)
    requires e.stamp < U32 && now < U64
    ensures Expired(e, now) <==> !e.dirty && (e.stamp > now || now - e.stamp >= 30000)
  {
    if e.stamp <= now { assert (now + U64 - e.stamp) % U64 == now - e.stamp; }
  }

  ghost function ExpiredPages(pages: map<Page, Entry>, now: nat): set<Page> {
    set p | p in pages && Expired(pages[p], now)
  }

  /** Transferred less than 30000 seconds ago. */
  predicate Recent(e: Entry, now: nat) { e.stamp < U32 && e.stamp <= now < e.stamp + 30000 }

  lemma RecentKept(pages: map<Page, Entry>, now: nat)
    requires now < U64
    ensures forall p :: p in pages && Recent(pages[p], now) ==> p !in ExpiredPages(pages, now)
  {
    hide Expired;
    forall p | p in pages && Recent(pages[p], now) ensures !Expired(pages[p], now) { ExpiredMeans(pages[p], now); }
  }

  /** How many of `n` expired pages are dropped for `bytes`. */
  function Quota(bytes: nat, n: nat): nat {
    if bytes % PAGE_SIZE == 0 && bytes / PAGE_SIZE < n then bytes / PAGE_SIZE else n
  }

  lemma QuotaMeans(bytes: nat, all: set<Page>, victims: set<Page>)
    requires victims <= all && |victims| == Quota(bytes, |all|)
    ensures bytes % 4096 == 0 && |victims| < |all| ==> 4096 * |victims| == bytes
    ensures bytes % 4096 == 0 ==> 4096 * |victims| <= bytes
    ensures bytes % 4096 != 0 ==> victims == all
  {
    if |victims| == |all| {
      assert |all - victims| == |all| - |victims|;
      assert all == victims + (all - victims);
    }
  }

  ghost predicate Precedes(order: seq<Page>, q: Page, p: Page) {
    exists a, b :: 0 <= a < b < |order| && order[a] == q && order[b] == p
  }

  /** From position `i` on exactly the expired pages have been dropped. */
  ghost predicate Chosen(order: seq<Page>, i: nat, all: set<Page>, victims: set<Page>) {
    && i <= |order| && NoDup(order) && (forall p :: p in all ==> p in order)
    && victims == set p | p in all && p in order[i..]
  }

  lemma ChosenStart(order: seq<Page>, pages: map<Page, Entry>, now: nat)
    requires NoDup(order) && forall p :: p in pages ==> p in order
    ensures Chosen(order, |order|, ExpiredPages(pages, now), {})
  {
  }

  /** A page that was not dropped yet is a candidate exactly when it has expired. */
  lemma Candidate(pages: map<Page, Entry>, victims: set<Page>, p: Page, now: nat)
    requires p in pages && p !in victims
    ensures p in pages - victims && (p in ExpiredPages(pages, now) <==> Expired((pages - victims)[p], now))
    ensures Expired(pages[p], now) ==> !pages[p].dirty
  {
  }

  lemma MinusMore(pages: map<Page, Entry>, victims: set<Page>, p: Page)
    ensures pages - victims - {p} == pages - (victims + {p})
  {
  }

  lemma RemainingStart(bytes: nat)
    requires bytes < U32
    ensures Remaining(bytes, 0, bytes)
  {
  }

  lemma ChosenStep(order: seq<Page>, i: nat, all: set<Page>, victims: set<Page>)
    requires i < |order| && Chosen(order, i + 1, all, victims)
    ensures order[i] !in victims && |victims + {order[i]}| == |victims| + 1
    ensures Chosen(order, i, all, if order[i] in all then victims + {order[i]} else victims)
  {
    assert order[i..] == [order[i]] + order[i + 1..];
    assert order[i] !in order[i + 1..];
  }

  lemma ChosenEnd(order: seq<Page>, i: nat, all: set<Page>, victims: set<Page>)
    requires Chosen(order, i, all, victims)
    ensures victims <= all && (i == 0 ==> victims == all)
    ensures forall p, q :: p in victims && q in all - victims ==> Precedes(order, q, p)
  {
    forall p, q | p in victims && q in all - victims ensures Precedes(order, q, p) {
      var b :| i <= b < |order| && order[b] == p;
      var a :| 0 <= a < |order| && order[a] == q;
      assert forall c :: i <= c < |order| ==> order[c] in order[i..];
    }
    assert order[0..] == order;
  }

  /** `left` is what remains of `bytes` after `n` pages, in 32-bit arithmetic. */
  predicate Remaining(bytes: nat, n: nat, left: nat) {
    && left < U32 && left % PAGE_SIZE == bytes % PAGE_SIZE
    && (bytes % PAGE_SIZE == 0 ==> left + n * PAGE_SIZE == bytes)
  }

  lemma RemainingStep(bytes: nat, n: nat, left: nat)
    requires bytes < U32 && Remaining(bytes, n, left) && left > 0
    ensures Remaining(bytes, n + 1, (left + U32 - PAGE_SIZE) % U32)
  {
  }

  lemma QuotaReached(bytes: nat, all: set<Page>, victims: set<Page>, left: nat)
    requires Remaining(bytes, |victims|, left) && victims <= all && (left > 0 ==> victims == all)
    ensures |victims| == Quota(bytes, |all|)
  {
    Smaller(victims, all);
  }

  lemma {:induction false} Smaller(a: set<Page>, b: set<Page>)
    requires a <= b
    ensures |a| <= |b| && (|a| == |b| ==> a == b)
  {
    if a != {} {
      var x :| x in a;
      Smaller(a - {x}, b - {x});
    }
  }

  lemma EvictKeeps(pages: map<Page, Entry>, disk: map<Sector, Data>, content: map<Sector, Data>, p: Page)
    requires p in pages && !pages[p].dirty && Coherent(pages, disk) && Represents(pages, disk, content)
    ensures Coherent(pages - {p}, disk) && Represents(pages - {p}, disk, content)
  {
    var pages' := pages - {p};
    var e := pages[p];
    forall s | s in disk && Uncached(pages', s) ensures content[s] == disk[s] {
      if s != e.sector || !e.valid {
        assert Uncached(pages, s) by {
          forall q | q in pages && pages[q].sector == s ensures !pages[q].valid {
            if q != p { assert pages'[q] == pages[q]; }
          }
        }
      }
    }
  }
}
