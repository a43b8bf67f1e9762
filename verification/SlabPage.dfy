/**
 One page of a slab (kernel/mm/slab.c): equal chunks, the free ones linked through their
 first word. Chunks that are handed out may hold anything.
 */
module SlabPage {
  import opened Platform
  import opened Arith
  import opened Seqs

  const LINK: nat := 4               // bytes of the link in a free chunk; smaller chunks lose it, see `SlabLinks`

  /** `slabInfo_t`, with the index of the list that pages of this chunk size are on. */
  datatype Info = Info(cls: nat, size: nat, nAllocated: nat, chunk: nat)

  /** The start of chunk `k`. */
  function Slot(page: nat, size: nat, k: nat): nat { page + size * k }

  ghost predicate IsSlot(page: nat, size: nat, a: nat)
    requires size >= 1
  {
    exists k: nat :: k < PAGE_SIZE / size && Slot(page, size, k) == a
  }

  /** Chunks lie inside their page, one behind the other. */
  lemma SlotInside(page: nat, size: nat, k: nat)
    requires size >= 1 && k < PAGE_SIZE / size
    ensures page <= Slot(page, size, k) && Slot(page, size, k) + size <= page + PAGE_SIZE
  {
    var n := PAGE_SIZE / size;
    assert size * n <= PAGE_SIZE;
    MulMonotone(size, k + 1, n);
    assert size * (k + 1) == size * k + size;
  }

  lemma SlotsApart(page: nat, size: nat, j: nat, k: nat)
    requires j < k
    ensures Slot(page, size, j) + size <= Slot(page, size, k)
  {
    MulMonotone(size, j + 1, k);
    assert size * (j + 1) == size * j + size;
  }

  /** The list that starts at `p` and is linked through `links` is `s`. */
  predicate Chain(links: map<nat, nat>, p: nat, s: seq<nat>)
    decreases |s|
  {
    if s == [] then p == 0
    else p == s[0] != 0 && p in links && Chain(links, links[p], s[1..])
  }

  lemma {:induction false} ChainFrame(links: map<nat, nat>, links': map<nat, nat>, p: nat, s: seq<nat>)
    requires Chain(links, p, s) && forall a :: a in s && a in links ==> a in links' && links'[a] == links[a]
    ensures Chain(links', p, s)
    decreases |s|
  {
    if s != [] { ChainFrame(links, links', links[p], s[1..]); }
  }

  /** Free and handed-out chunks are together all chunks of the page, each once. */
  ghost predicate Split(page: nat, size: nat, free: seq<nat>, out: set<nat>) {
    && 1 <= size && page > 0 && NoDup(free)
    && (forall a :: a in free ==> IsSlot(page, size, a) && a !in out)
    && (forall a :: a in out ==> IsSlot(page, size, a))
    && (forall k: nat :: k < PAGE_SIZE / size ==> Slot(page, size, k) in free || Slot(page, size, k) in out)
  }

  ghost predicate PageOk(page: nat, i: Info, links: map<nat, nat>, free: seq<nat>, out: set<nat>) {
    Split(page, i.size, free, out) && Chain(links, i.chunk, free) && i.nAllocated == |out|
  }

  /** Taking the first free chunk. */
  lemma TakeKeeps(page: nat, i: Info, links: map<nat, nat>, free: seq<nat>, out: set<nat>)
    requires PageOk(page, i, links, free, out) && i.chunk != 0
    ensures free != [] && i.chunk == free[0] && i.chunk in links && i.chunk !in out
    ensures PageOk(page, i.(nAllocated := i.nAllocated + 1, chunk := links[i.chunk]), links, free[1..], out + {i.chunk})
  {
    var a := i.chunk;
    assert forall x :: x in free <==> x == a || x in free[1..];
    assert a !in free[1..];
    assert |out + {a}| == |out| + 1;
  }

  /** Giving a chunk back. */
  lemma GiveKeeps(page: nat, i: Info, links: map<nat, nat>, free: seq<nat>, out: set<nat>, a: nat)
    requires PageOk(page, i, links, free, out) && a in out && a != 0
    ensures i.nAllocated > 0
    ensures PageOk(page, i.(nAllocated := i.nAllocated - 1, chunk := a), links[a := i.chunk], [a] + free, out - {a})
  {
    var links' := links[a := i.chunk];
    ChainFrame(links, links', i.chunk, free);
    assert ([a] + free)[1..] == free;
    assert out == (out - {a}) + {a};
    assert |out| == |out - {a}| + 1;
  }

  /** Writing the first word of a chunk that is not free disturbs nothing. */
  lemma WriteKeeps(page: nat, i: Info, links: map<nat, nat>, free: seq<nat>, out: set<nat>, a: nat, v: nat)
    requires PageOk(page, i, links, free, out) && a !in free
    ensures PageOk(page, i, links[a := v], free, out)
  {
    ChainFrame(links, links[a := v], i.chunk, free);
  }

  /** Words outside a page keep their values. */
  ghost predicate SameOutside(links: map<nat, nat>, links': map<nat, nat>, page: nat) {
    forall a :: (a < page || a >= page + PAGE_SIZE) && a in links ==> a in links' && links'[a] == links[a]
  }

  // ---------------------------------------------------------------- add_slab

  /** Chunks `k`, `k + 1`, ... of a page with `n` chunks. */
  ghost function SlotsFrom(page: nat, size: nat, k: nat, n: nat): seq<nat>
    requires k <= n
    decreases n - k
  {
    if k == n then [] else [Slot(page, size, k)] + SlotsFrom(page, size, k + 1, n)
  }

  lemma {:induction false} SlotsFromAre(page: nat, size: nat, k: nat, n: nat)
    requires k <= n && size >= 1
    ensures |SlotsFrom(page, size, k, n)| == n - k
    ensures forall i: nat :: i < n - k ==> SlotsFrom(page, size, k, n)[i] == Slot(page, size, k + i)
    decreases n - k
  {
    if k < n { SlotsFromAre(page, size, k + 1, n); }
  }

  lemma FreshPage(page: nat, size: nat)
    requires 1 <= size && page > 0
    ensures Split(page, size, SlotsFrom(page, size, 0, PAGE_SIZE / size), {})
  {
    var n := PAGE_SIZE / size;
    var s := SlotsFrom(page, size, 0, n);
    SlotsFromAre(page, size, 0, n);
    forall i: nat, j: nat | i < j < n ensures s[i] != s[j] {
      SlotsApart(page, size, i, j);
    }
    forall k: nat | k < n ensures Slot(page, size, k) in s {
      assert s[k] == Slot(page, size, 0 + k);
    }
    forall a | a in s ensures IsSlot(page, size, a) {
      var k: nat :| k < n && s[k] == a;
      assert Slot(page, size, 0 + k) == a;
    }
  }

  /** The loop of `add_slab`: every chunk is linked to the next, the last to NULL. */
  method LinkChunks(page: nat, size: nat, links: map<nat, nat>) returns (r: map<nat, nat>)
    requires LINK <= size <= PAGE_SIZE && page > 0
    ensures Chain(r, page, SlotsFrom(page, size, 0, PAGE_SIZE / size))
    ensures SameOutside(links, r, page)
  {
    var cnt := PAGE_SIZE / size;
    assert cnt >= 1;
    var chunk := page;
    var i := 0;
    r := links;
    while i < cnt - 1
      invariant 0 <= i <= cnt - 1 && chunk == Slot(page, size, i)
      invariant forall k: nat :: k < i ==> Slot(page, size, k) in r && r[Slot(page, size, k)] == Slot(page, size, k + 1)
      invariant SameOutside(links, r, page)
    {
      SlotInside(page, size, i);
      forall k: nat | k < i ensures Slot(page, size, k) != chunk { SlotsApart(page, size, k, i); }
      assert Slot(page, size, i + 1) == chunk + size;
      r := r[chunk := chunk + size];
      chunk := chunk + size;
      i := i + 1;
    }
    SlotInside(page, size, i);
    forall k: nat | k < i ensures Slot(page, size, k) != chunk { SlotsApart(page, size, k, i); }
    r := r[chunk := 0];
    LinkedIsChain(page, size, r, 0, cnt);
  }

  predicate LinkedOn(page: nat, size: nat, links: map<nat, nat>, j: nat, n: nat) {
    var a := Slot(page, size, j);
    a in links && links[a] == if j + 1 == n then 0 else Slot(page, size, j + 1)
  }

  lemma {:induction false} LinkedIsChain(page: nat, size: nat, links: map<nat, nat>, k: nat, n: nat)
    requires k < n && page > 0
    requires forall j: nat :: j < n ==> LinkedOn(page, size, links, j, n)
    ensures Chain(links, Slot(page, size, k), SlotsFrom(page, size, k, n))
    decreases n - k
  {
    var s := SlotsFrom(page, size, k, n);
    assert s[1..] == SlotsFrom(page, size, k + 1, n);
    assert LinkedOn(page, size, links, k, n);
    if k + 1 < n {
      LinkedIsChain(page, size, links, k + 1, n);
    } else {
      assert SlotsFrom(page, size, k + 1, n) == [];
    }
    assert Chain(links, links[Slot(page, size, k)], s[1..]);
  }
}
