/** The methods of the slab allocator (kernel/mm/slab.c), each a step of `Slab`. */
module SlabAllocator {
  import opened Platform
  import opened Seqs
  import opened SlabPage
  import opened Slab
  import opened Dyadic
  import Qlib

  const SLAB_MIN: nat := 4
  const SLAB_MAX: nat := 2048
  const LIST_SIZE: nat := 10

  class Allocator {
    const sizes: seq<nat>              // the chunk size of each list
    var slab: seq<seq<nat>>
    var full: seq<nat>
    var info: map<nat, Info>
    var links: map<nat, nat>           // the first word of chunks
    ghost var free: map<nat, seq<nat>>
    ghost var out: map<nat, set<nat>>

    ghost function State(): Slab.State
      reads this
    {
      Slab.State(slab, full, info, links, free, out)
    }

    ghost predicate Valid()
      reads this
    {
      Inv(State(), sizes)
    }

    ghost function Chunks(): set<Extent>
      reads this
    {
      Outstanding(State())
    }

    constructor (sizes: seq<nat>)
      requires forall c :: 0 <= c < |sizes| ==> LINK <= sizes[c] <= PAGE_SIZE
      ensures Valid() && Chunks() == {} && info == map[] && this.sizes == sizes
    {
      this.sizes := sizes;
      slab, full, info, links, free, out := seq(|sizes|, _ => []), [], map[], map[], map[], map[];
    }

    /** `add_slab` with the page that the page allocator returned. */
    method AddSlab(c: nat, page: nat)
      requires Valid() && c < |sizes| && page !in info && page > 0 && page % PAGE_SIZE == 0
      modifies this
      ensures Valid() && Chunks() == old(Chunks())
      ensures slab == old(slab)[c := [page] + old(slab)[c]] && info == old(info)[page := Info(c, sizes[c], 0, page)]
    {
      hide Inv, Outstanding, SlotsFrom, Chain, SameOutside;
      ghost var s := State();
      Shape(s, sizes);
      var l := LinkChunks(page, sizes[c], links);
      AddSpec(s, sizes, page, c, l);
      links, slab, info := l, slab[c := [page] + slab[c]], info[page := Info(c, sizes[c], 0, page)];
      free, out := free[page := SlotsFrom(page, sizes[c], 0, PAGE_SIZE / sizes[c])], out[page := {}];
      assert State() == Add(s, page, c, sizes[c], l);
    }

    /** The part of `__slab_alloc` that takes the first chunk of the first page of a list. */
    method TakeFirst(c: nat) returns (chunk: nat)
      requires Valid() && c < |sizes| && slab[c] != []
      modifies this
      ensures Valid() && Extent(chunk, sizes[c]) !in old(Chunks())
      ensures Chunks() == old(Chunks()) + {Extent(chunk, sizes[c])}
      ensures info.Keys == old(info.Keys)
    {
      hide Inv, Outstanding, Remove;
      ghost var s := State();
      FirstPage(s, sizes, c);
      var page := slab[c][0];
      TakeSpec(s, sizes, page);
      var i := info[page];
      chunk := i.chunk;
      var rest := links[chunk];
      if rest == 0 {
        slab, full := slab[c := Remove(slab[c], page)], [page] + full;
      }
      info, free, out := info[page := i.(nAllocated := i.nAllocated + 1, chunk := rest)],
        free[page := free[page][1..]], out[page := out[page] + {chunk}];
      assert State() == Take(s, page);
    }

    /** `__slab_alloc`; `spare` is the page that `add_slab` gets if it is called. */
    method AllocFrom(c: nat, spare: nat) returns (chunk: nat)
      requires Valid() && c < |sizes| && spare !in info && spare > 0 && spare % PAGE_SIZE == 0
      modifies this
      ensures Valid() && Extent(chunk, sizes[c]) !in old(Chunks())
      ensures Chunks() == old(Chunks()) + {Extent(chunk, sizes[c])}
      ensures forall e :: e in old(Chunks()) ==> e.at + e.size <= chunk || chunk + sizes[c] <= e.at
      ensures info.Keys == old(info.Keys) + (if c < |old(slab)| && old(slab)[c] == [] then {spare} else {})
    {
      hide Inv, Outstanding;
      assert |slab| == |sizes| by { Shape(State(), sizes); }
      if slab[c] == [] {
        AddSlab(c, spare);
        Shape(State(), sizes);
      }
      chunk := TakeFirst(c);
      forall e | e in old(Chunks()) ensures e.at + e.size <= chunk || chunk + sizes[c] <= e.at {
        OutDisjoint(State(), sizes, e, Extent(chunk, sizes[c]));
      }
    }

    /** `__slab_free` of a chunk that is handed out. */
    method Free(addr: nat)
      requires Valid() && exists e :: e in Chunks() && e.at == addr
      modifies this
      ensures Valid() && exists e :: e in old(Chunks()) && e.at == addr && Chunks() == old(Chunks()) - {e}
      ensures info.Keys == old(info.Keys)
    {
      hide Inv, Outstanding, Remove;
      var page: nat := addr - addr % PAGE_SIZE;
      ghost var s := State();
      HomePage(s, sizes, addr);
      GiveSpec(s, sizes, page, addr);
      var i := info[page];
      if i.chunk == 0 {
        slab, full := slab[i.cls := [page] + slab[i.cls]], Remove(full, page);
      }
      info, links := info[page := i.(nAllocated := i.nAllocated - 1, chunk := addr)], links[addr := i.chunk];
      free, out := free[page := [addr] + free[page]], out[page := out[page] - {addr}];
      assert State() == Give(s, page, addr);
      assert Extent(addr, i.size) in old(Chunks());
    }

    /** The owner of a chunk may write to it. */
    method OwnerWrites(addr: nat, v: nat)
      requires Valid() && exists e :: e in Chunks() && e.at == addr
      modifies `links
      ensures Valid() && Chunks() == old(Chunks())
    {
      ghost var s := State();
      HomePage(s, sizes, addr);
      StoreKeeps(s, sizes, addr - addr % PAGE_SIZE, addr, v);
      links := links[addr := v];
      assert State() == s.(links := s.links[addr := v]);
    }
  }

  /** The ten chunk sizes of `slab_alloc`. */
  ghost predicate Builtin(sizes: seq<nat>) {
    |sizes| == LIST_SIZE && forall i: nat :: i < LIST_SIZE ==> sizes[i] == Pow2(i + 2)
  }

  /** A size from 4 to 2048 rounds to a power that has a list. */
  lemma ClassOf(want: nat, fixed: nat, k: nat)
    requires SLAB_MIN <= want <= SLAB_MAX && k <= 31 && Qlib.LeastPow2(want, fixed, k)
    ensures 2 <= k <= 11 && fixed == Pow2(k) <= SLAB_MAX
  {
    assert Pow2(11) == 2048 && Pow2(1) == 2;
    if k > 11 { Pow2Monotone(11, k - 1); }
    if k <= 11 { Pow2Monotone(k, 11); }
  }

  lemma FirstPage(s: Slab.State, sizes: seq<nat>, c: nat)
    requires Inv(s, sizes) && c < |sizes| && s.slab[c] != []
    ensures c < |s.slab|
    ensures var p := s.slab[c][0];
      p in s.info && p in s.free && s.info[p].cls == c && s.info[p].size == sizes[c] && s.free[p] != []
  {
    assert ListOk(s, c) && Partial(s, s.slab[c][0], c);
    assert PageIn(s, sizes, s.slab[c][0]);
  }

  /** The page of a chunk is found by rounding its address down. */
  lemma HomePage(s: Slab.State, sizes: seq<nat>, a: nat)
    requires Inv(s, sizes) && exists e :: e in Outstanding(s) && e.at == a
    ensures var p := a - a % PAGE_SIZE;
      p in s.info && p in s.out && a in s.out[p] && p in s.free && s.info[p].cls < |s.slab|
  {
    hide PageOk, Lists;
    var e :| e in Outstanding(s) && e.at == a;
    var p, b :| p in s.info && p in s.out && b in s.out[p] && e == Extent(b, s.info[p].size);
    assert PageIn(s, sizes, p);
    ChunkInPage(s, sizes, p, a);
  }

  lemma StoreKeeps(s: Slab.State, sizes: seq<nat>, p: nat, a: nat, v: nat)
    requires Inv(s, sizes) && p in s.info && p in s.out && a in s.out[p]
    ensures var t := s.(links := s.links[a := v]); Inv(t, sizes) && Outstanding(t) == Outstanding(s)
  {
    var t := s.(links := s.links[a := v]);
    assert PageIn(s, sizes, p);
    ChunkInPage(s, sizes, p, a);
    WriteKeeps(p, s.info[p], s.links, s.free[p], s.out[p], a, v);
    assert PageIn(t, sizes, p);
    PagesUpdate(s, t, sizes, p);
    assert Lists(t) by {
      hide Pages, PageIn;
      forall c: nat | c < |t.slab| ensures ListOk(t, c) {
        assert ListOk(s, c);
        forall q ensures q in t.slab[c] <==> Partial(t, q, c) { assert Partial(s, q, c) <==> Partial(t, q, c); }
      }
      forall q ensures q in t.full <==> Full(t, q) { assert Full(s, q) <==> Full(t, q); }
    }
  }
}
