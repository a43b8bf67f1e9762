/**
 The linear kernel mapping (kernel/mm/vm.c) beside the blocks of the page allocator: which
 page table entries are present, and how mapping a new block and unmapping a freed one
 keep them in step. Page `x` of the managed region is frame `base + x`.
 */
module KernelMap {
  import opened Platform
  import opened Dyadic
  import opened BuddyModel

  /** A page table entry of the linear map; flags other than the present bit are not modelled. */
  datatype Pte = Absent | Present(pa: nat)

  /** Live blocks never share a page, and their sizes are powers of two. */
  ghost predicate LiveOk(live: map<nat, Page>, n: nat) {
    && (forall i, j, x :: Covers(live, i, x) && Covers(live, j, x) ==> i == j)
    && (forall i :: i in live ==> live[i].size == Bytes(Order(live[i])) && i + Pow2(Order(live[i])) <= n)
  }

  lemma HeapLiveOk(h: Heap)
    requires Inv(h)
    ensures LiveOk(Live(h.pages), |h.pages|)
  {
    var live := Live(h.pages);
    forall i, j, x | Covers(live, i, x) && Covers(live, j, x) ensures i == j {
      LiveDisjoint(h.pages, i, j, x);
    }
    forall i | i in live ensures live[i].size == Bytes(Order(live[i])) && i + Pow2(Order(live[i])) <= |h.pages| {
      assert BlockAt(h.pages, i);
    }
  }

  /** Page `x` is mapped to its own frame, or not at all. */
  ghost predicate EntryOk(table: seq<Pte>, base: nat, live: map<nat, Page>, x: nat) {
    && base + x < |table|
    && table[base + x] == if Vacant(live, x) then Absent else Present((base + x) * PAGE_SIZE)
  }

  /** A managed frame is mapped exactly when it belongs to a live block. */
  ghost predicate PresentIffLive(table: seq<Pte>, base: nat, n: nat, live: map<nat, Page>) {
    forall x: nat :: x < n ==> EntryOk(table, base, live, x)
  }

  /** Entries `first`, ..., `first + count - 1` are those of `mapped`; the others are unchanged. */
  ghost predicate Mapped(t: seq<Pte>, t': seq<Pte>, first: nat, count: nat) {
    && |t'| == |t| && first + count <= |t|
    && forall j: nat :: j < |t| ==> t'[j] == if first <= j < first + count then Present(j * PAGE_SIZE) else t[j]
  }

  ghost predicate Unmapped(t: seq<Pte>, t': seq<Pte>, first: nat, count: nat) {
    && |t'| == |t| && first + count <= |t|
    && forall j: nat :: j < |t| ==> t'[j] == if first <= j < first + count then Absent else t[j]
  }

  /** `kvm_maps` of `count` pages onto their own frames; false is the failed assertion at line 97. */
  method KvmMaps(table: array<Pte>, first: nat, count: nat) returns (ok: bool)
    requires first + count <= table.Length
    modifies table
    ensures ok <==> forall j: nat :: first <= j < first + count ==> old(table[..])[j] == Absent
    ensures ok ==> Mapped(old(table[..]), table[..], first, count)
  {
    var i := 0;
    while i < count
      invariant 0 <= i <= count
      invariant forall j: nat :: first <= j < first + i ==> old(table[..])[j] == Absent
      invariant forall j: nat :: j < table.Length ==>
        table[j] == if first <= j < first + i then Present(j * PAGE_SIZE) else old(table[j])
    {
      if table[first + i] != Absent {
        assert old(table[..])[first + i] != Absent;
        return false;
      }
      table[first + i] := Present((first + i) * PAGE_SIZE);
      i := i + 1;
    }
    return true;
  }

  /** `kvm_unmap3` */
  method KvmUnmap(table: array<Pte>, first: nat, count: nat)
    requires first + count <= table.Length
    modifies table
    ensures Unmapped(old(table[..]), table[..], first, count)
  {
    var i := 0;
    while i < count
      invariant 0 <= i <= count
      invariant forall j: nat :: j < table.Length ==>
                  table[j] == if first <= j < first + i then Absent else old(table[j])
    {
      table[first + i] := Absent;
      i := i + 1;
    }
  }

  /** `v2p`: the physical address of a mapped page, 0 for an absent one. */
  function V2P(table: seq<Pte>, frame: nat): nat
    requires frame < |table|
  {
    match table[frame] case Absent => 0 case Present(pa) => pa
  }

  /** On live pages `v2p` inverts the linear map. */
  lemma V2PInverts(table: seq<Pte>, base: nat, n: nat, live: map<nat, Page>, x: nat)
    requires PresentIffLive(table, base, n, live) && x < n
    ensures base + x < |table| && V2P(table, base + x) == if Vacant(live, x) then 0 else (base + x) * PAGE_SIZE
  {
    assert EntryOk(table, base, live, x);
  }

  /** The assertion of `kvm_maps` never fails for a block that the page allocator returned. */
  lemma FreshBlockUnmapped(table: seq<Pte>, base: nat, n: nat, live: map<nat, Page>, p: nat, k: nat)
    requires PresentIffLive(table, base, n, live) && VacantRun(live, n, p, k)
    ensures p + Pow2(k) <= n && (n > 0 ==> base + n <= |table|)
    ensures forall j: nat :: base + p <= j < base + p + Pow2(k) ==> j < |table| && table[j] == Absent
  {
    if n > 0 { assert EntryOk(table, base, live, n - 1); }
    forall j: nat | base + p <= j < base + p + Pow2(k) ensures j < |table| && table[j] == Absent {
      assert EntryOk(table, base, live, j - base) && Vacant(live, j - base);
      assert base + (j - base) == j;
    }
  }

  lemma MapKeeps(t: seq<Pte>, t': seq<Pte>, base: nat, n: nat, live: map<nat, Page>, p: nat, k: nat)
    requires PresentIffLive(t, base, n, live) && VacantRun(live, n, p, k) && Mapped(t, t', base + p, Pow2(k))
    ensures PresentIffLive(t', base, n, live[p := Page(true, Bytes(k), 1)])
  {
    var live' := live[p := Page(true, Bytes(k), 1)];
    OrderOfBytes(Page(true, Bytes(k), 1), k);
    hide Order, Bytes;
    forall x: nat | x < n ensures EntryOk(t', base, live', x) {
      assert EntryOk(t, base, live, x);
      CoversAdded(live, n, p, Page(true, Bytes(k), 1), k, x);
    }
  }

  lemma CoversAdded(live: map<nat, Page>, n: nat, p: nat, pg: Page, k: nat, x: nat)
    requires VacantRun(live, n, p, k) && Order(pg) == k
    ensures Vacant(live[p := pg], x) <==> Vacant(live, x) && !(p <= x < p + Pow2(k))
  {
    var live' := live[p := pg];
    assert Pow2(k) >= 1;
    assert Vacant(live, p);
    if p in live {
      assert Pow2(Order(live[p])) >= 1;
      assert Covers(live, p, p);
    }
    if p <= x < p + Pow2(k) { assert Covers(live', p, x); }
    forall i ensures Covers(live', i, x) <==> Covers(live, i, x) || (i == p && p <= x < p + Pow2(k)) {
    }
    if !Vacant(live, x) {
      var i :| Covers(live, i, x);
      assert Covers(live', i, x);
    }
  }

  lemma UnmapKeeps(t: seq<Pte>, t': seq<Pte>, base: nat, n: nat, live: map<nat, Page>, p: nat)
    requires LiveOk(live, n) && PresentIffLive(t, base, n, live) && p in live
    requires Unmapped(t, t', base + p, Pow2(Order(live[p])))
    ensures PresentIffLive(t', base, n, live - {p})
  {
    var live' := live - {p};
    forall x: nat | x < n ensures EntryOk(t', base, live', x) {
      assert EntryOk(t, base, live, x);
      CoversRemoved(live, n, p, x);
    }
  }

  lemma CoversRemoved(live: map<nat, Page>, n: nat, p: nat, x: nat)
    requires LiveOk(live, n) && p in live
    ensures Vacant(live - {p}, x) <==> Vacant(live, x) || p <= x < p + Pow2(Order(live[p]))
  {
    var live' := live - {p};
    forall i ensures Covers(live', i, x) <==> Covers(live, i, x) && i != p {
    }
    if p <= x < p + Pow2(Order(live[p])) { assert Covers(live, p, x); }
    if !Vacant(live', x) {
      var i :| Covers(live', i, x);
      assert Covers(live, i, x);
    }
    if !Vacant(live, x) && !(p <= x < p + Pow2(Order(live[p]))) {
      var i :| Covers(live, i, x);
      assert Covers(live', i, x);
    }
  }
}
