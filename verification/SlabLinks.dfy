/**
 The loop of `add_slab` (kernel/mm/slab.c:160-166) over bytes: a link is a 32-bit little-endian
 store into the first bytes of a chunk. Chunks smaller than a link overlap it with the next one.
 */
module SlabLinks {
  import opened Platform
  import opened SlabPage

  type Bytes = map<nat, nat>

  function Store(m: Bytes, a: nat, v: nat): Bytes {
    var w := v / 0x100;
    var x := w / 0x100;
    m[a := v % 0x100][a + 1 := w % 0x100][a + 2 := x % 0x100][a + 3 := x / 0x100 % 0x100]
  }

  /** A missing byte reads as 0. */
  function ByteAt(m: Bytes, a: nat): nat { if a in m then m[a] else 0 }

  function Load(m: Bytes, a: nat): nat {
    ByteAt(m, a) + 0x100 * ByteAt(m, a + 1) + 0x1_0000 * ByteAt(m, a + 2) + 0x100_0000 * ByteAt(m, a + 3)
  }

  lemma LoadStored(m: Bytes, a: nat, v: nat)
    requires v < U32
    ensures Load(Store(m, a, v), a) == v
  {
  }

  lemma LoadApart(m: Bytes, a: nat, v: nat, b: nat)
    requires b + LINK <= a
    ensures Load(Store(m, a, v), b) == Load(m, b)
  {
  }

  /** The link of chunk `k` of `n`. */
  function Next(page: nat, size: nat, k: nat, n: nat): nat { if k + 1 == n then 0 else Slot(page, size, k + 1) }

  /** The bytes after the stores into the first `k` of `n` chunks. */
  function Linked(m: Bytes, page: nat, size: nat, k: nat, n: nat): Bytes {
    if k == 0 then m
    else Store(Linked(m, page, size, k - 1, n), Slot(page, size, k - 1), Next(page, size, k - 1, n))
  }

  ghost predicate LinksRight(m: Bytes, page: nat, size: nat, k: nat, n: nat) {
    forall j: nat :: j < k ==> Load(m, Slot(page, size, j)) == Next(page, size, j, n)
  }

  lemma {:induction false} WideLinks(m: Bytes, page: nat, size: nat, k: nat, n: nat)
    requires LINK <= size && k <= n <= PAGE_SIZE / size && page + PAGE_SIZE <= U32
    ensures LinksRight(Linked(m, page, size, k, n), page, size, k, n)
  {
    hide Load, Store, Slot;
    if k > 0 {
      WideLinks(m, page, size, k - 1, n);
      var b, at, v := Linked(m, page, size, k - 1, n), Slot(page, size, k - 1), Next(page, size, k - 1, n);
      SlotInside(page, size, k - 1);
      if k < n { SlotInside(page, size, k); }
      LoadStored(b, at, v);
      forall j: nat | j < k - 1 ensures Load(Store(b, at, v), Slot(page, size, j)) == Next(page, size, j, n) {
        SlotsApart(page, size, j, k - 1);
        LoadApart(b, at, v, Slot(page, size, j));
      }
    }
  }

  /** The last three stores of the loop. */
  function LastThree(m: Bytes, a: nat, size: nat): Bytes {
    Store(Store(Store(m, a, a + size), a + size, a + 2 * size), a + 2 * size, 0)
  }

  lemma OneByteChunks(m: Bytes, a: nat)
    requires a >= 0x100
    ensures Load(LastThree(m, a, 1), a + 1) != a + 2
  {
  }

  lemma TwoByteChunks(m: Bytes, a: nat)
    ensures Load(LastThree(m, a, 2), a + 2) != a + 4 || Load(LastThree(m, a, 2), a) != a + 2
  {
  }

  lemma ThreeByteChunks(m: Bytes, a: nat)
    requires (a + 6) % 0x100 != 0
    ensures Load(LastThree(m, a, 3), a + 3) != a + 6 || Load(LastThree(m, a, 3), a) != a + 3
  {
  }

  lemma NarrowLinks(m: Bytes, page: nat, size: nat)
    requires 1 <= size < LINK && page > 0 && page % PAGE_SIZE == 0
    ensures var n := PAGE_SIZE / size; !LinksRight(Linked(m, page, size, n, n), page, size, n, n)
  {
    hide Load, Store, LastThree, Linked;
    var n := PAGE_SIZE / size;
    var a, b := Slot(page, size, n - 3), Linked(m, page, size, n - 3, n);
    EndsWithThree(m, page, size, n);
    var r := Linked(m, page, size, n, n);
    assert Slot(page, size, n - 2) == a + size && Slot(page, size, n - 1) == a + 2 * size;
    if size == 1 {
      OneByteChunks(b, a);
    } else if size == 2 {
      TwoByteChunks(b, a);
    } else {
      assert a + 6 == page + 4092;
      ThreeByteChunks(b, a);
    }
    assert Load(r, Slot(page, size, n - 3)) != a + size || Load(r, Slot(page, size, n - 2)) != a + 2 * size;
  }

  lemma EndsWithThree(m: Bytes, page: nat, size: nat, n: nat)
    requires n >= 3
    ensures Linked(m, page, size, n, n) == LastThree(Linked(m, page, size, n - 3, n), Slot(page, size, n - 3), size)
  {
    hide Store;
    SlotStep(page, size, n - 3);
    SlotStep(page, size, n - 2);
    var a, b := Slot(page, size, n - 3), Linked(m, page, size, n - 3, n);
    assert Linked(m, page, size, n - 2, n) == Store(b, a, a + size);
    assert Linked(m, page, size, n - 1, n) == Store(Store(b, a, a + size), a + size, a + 2 * size);
  }

  lemma SlotStep(page: nat, size: nat, k: nat)
    ensures Slot(page, size, k + 1) == Slot(page, size, k) + size
  {
  }

  /** Every link of a fresh page survives the loop exactly when a chunk has room for one. */
  lemma LinksSurvive(m: Bytes, page: nat, size: nat)
    requires 1 <= size <= PAGE_SIZE && page > 0 && page % PAGE_SIZE == 0 && page + PAGE_SIZE <= U32
    ensures var n := PAGE_SIZE / size; LinksRight(Linked(m, page, size, n, n), page, size, n, n) <==> LINK <= size
  {
    if LINK <= size {
      WideLinks(m, page, size, PAGE_SIZE / size, PAGE_SIZE / size);
    } else {
      NarrowLinks(m, page, size);
    }
  }
}
