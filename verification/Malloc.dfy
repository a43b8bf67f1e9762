/**
 The user-space allocator (userspace/malloc.c): arenas of 4096 bytes, each cut into chunks
 that are linked in address order. A chunk header takes 12 bytes; address 0 is NULL.
 */
module Malloc {
  import opened Platform

  const HEADER: nat := 12              // sizeof(chunk_t)
  const ARENA: nat := 4096

  /** `chunk_t`; `size` counts the header. */
  datatype Chunk = Chunk(next: nat, size: nat, used: bool)

  type Heap = map<nat, Chunk>

  /** Chunk `a` of the arena that ends at `end` is linked to the chunk right behind it. */
  predicate Linked(m: Heap, a: nat, end: nat) {
    && a in m && m[a].size >= HEADER && m[a].size % 2 == 0 && a + m[a].size <= end
    && m[a].next == if a + m[a].size == end then 0 else a + m[a].size
  }

  /** The chunks from `a` on follow each other up to `b`. */
  predicate Tiled(m: Heap, a: nat, b: nat, end: nat)
    decreases b - a
  {
    a == b || (a < b && Linked(m, a, end) && Tiled(m, a + m[a].size, b, end))
  }

  /** The chunks in use between `a` and `b`. */
  ghost function LiveIn(m: Heap, a: nat, b: nat, end: nat): set<Extent>
    requires Tiled(m, a, b, end)
    decreases b - a
  {
    if a == b then {}
    else Self(m[a], a) + LiveIn(m, a + m[a].size, b, end)
  }

  ghost function Self(c: Chunk, a: nat): set<Extent> { if c.used then {Extent(a, c.size)} else {} }

  ghost predicate SameBetween(m: Heap, m': Heap, a: nat, b: nat) {
    forall k :: a <= k < b ==> (k in m <==> k in m') && (k in m ==> m[k] == m'[k])
  }

  lemma TiledOrder(m: Heap, a: nat, b: nat, end: nat)
    requires Tiled(m, a, b, end)
    ensures a <= b
  {
  }

  lemma {:induction false} TiledFrame(m: Heap, m': Heap, a: nat, b: nat, end: nat)
    requires Tiled(m, a, b, end) && SameBetween(m, m', a, b)
    ensures Tiled(m', a, b, end) && LiveIn(m', a, b, end) == LiveIn(m, a, b, end)
    decreases b - a
  {
    if a < b { TiledFrame(m, m', a + m[a].size, b, end); }
  }

  lemma {:induction false} TiledJoin(m: Heap, a: nat, b: nat, c: nat, end: nat)
    requires Tiled(m, a, b, end) && Tiled(m, b, c, end)
    ensures a <= b <= c && Tiled(m, a, c, end) && LiveIn(m, a, c, end) == LiveIn(m, a, b, end) + LiveIn(m, b, c, end)
    decreases b - a
  {
    TiledOrder(m, b, c, end);
    if a < b { TiledJoin(m, a + m[a].size, b, c, end); }
  }

  lemma TiledStep(m: Heap, a: nat, b: nat, end: nat)
    requires Linked(m, a, end) && Tiled(m, a + m[a].size, b, end)
    ensures Tiled(m, a, b, end) && a < b && LiveIn(m, a, b, end) == Self(m[a], a) + LiveIn(m, a + m[a].size, b, end)
  {
    TiledOrder(m, a + m[a].size, b, end);
  }

  lemma TiledEmpty(m: Heap, a: nat, end: nat)
    ensures Tiled(m, a, a, end) && LiveIn(m, a, a, end) == {}
  {
  }

  /** Chunks lie inside the range they tile. */
  lemma {:induction false} LiveInside(m: Heap, a: nat, b: nat, end: nat, e: Extent)
    requires Tiled(m, a, b, end) && e in LiveIn(m, a, b, end)
    ensures a <= e.at && e.at + e.size <= b && e.size >= HEADER
    ensures Tiled(m, a, e.at, end) && Tiled(m, e.at, b, end)
    ensures Linked(m, e.at, end) && m[e.at] == Chunk(m[e.at].next, e.size, true)
    decreases b - a
  {
    var c := a + m[a].size;
    TiledOrder(m, c, b, end);
    TiledEmpty(m, a, end);
    if e in Self(m[a], a) {
    } else {
      LiveInside(m, c, b, end, e);
      TiledStep(m, a, e.at, end);
    }
  }

  /** Two different chunks of an arena do not overlap. */
  lemma {:induction false} LiveApart(m: Heap, a: nat, b: nat, end: nat, e: Extent, f: Extent)
    requires Tiled(m, a, b, end) && e in LiveIn(m, a, b, end) && f in LiveIn(m, a, b, end) && e != f
    ensures Apart(e, f)
    decreases b - a
  {
    var c := a + m[a].size;
    if e !in Self(m[a], a) && f !in Self(m[a], a) {
      LiveApart(m, c, b, end, e, f);
    } else if e !in Self(m[a], a) {
      LiveInside(m, c, b, end, e);
    } else if f !in Self(m[a], a) {
      LiveInside(m, c, b, end, f);
    }
  }

  // ------------------------------------------------------------------ arenas

  /** Arenas lie one behind the other, each tiled by its own chain, below the break. */
  ghost predicate Arenas(m: Heap, bases: seq<nat>, brk: nat) {
    && (forall i: nat :: i < |bases| ==> 0 < bases[i] && bases[i] + ARENA <= brk && Arena(m, bases[i]))
    && (forall i: nat, j: nat :: i < j < |bases| ==> bases[i] + ARENA <= bases[j])
  }

  ghost predicate Arena(m: Heap, base: nat) { Tiled(m, base, base + ARENA, base + ARENA) }

  ghost function ArenaLive(m: Heap, base: nat): set<Extent>
    requires Arena(m, base)
  {
    LiveIn(m, base, base + ARENA, base + ARENA)
  }

  /** All chunks in use. */
  ghost function Live(m: Heap, bases: seq<nat>, brk: nat): set<Extent>
    requires Arenas(m, bases, brk)
  {
    set i: nat, e | 0 <= i < |bases| && e in ArenaLive(m, bases[i]) :: e
  }

  /** Live chunks of any two arenas are disjoint, and so are their payloads. */
  lemma LiveDisjoint(m: Heap, bases: seq<nat>, brk: nat, e: Extent, f: Extent)
    requires Arenas(m, bases, brk) && e in Live(m, bases, brk) && f in Live(m, bases, brk) && e != f
    ensures Apart(e, f)
  {
    var i: nat :| i < |bases| && e in ArenaLive(m, bases[i]);
    var j: nat :| j < |bases| && f in ArenaLive(m, bases[j]);
    LiveInside(m, bases[i], bases[i] + ARENA, bases[i] + ARENA, e);
    LiveInside(m, bases[j], bases[j] + ARENA, bases[j] + ARENA, f);
    if i == j {
      LiveApart(m, bases[i], bases[i] + ARENA, bases[i] + ARENA, e, f);
    }
  }

  // ---------------------------------------------------------------- changing

  ghost predicate OutsideSame(m: Heap, m': Heap, a: nat, b: nat) {
    SameBetween(m, m', 0, a) && forall k :: b <= k ==> (k in m <==> k in m') && (k in m ==> m[k] == m'[k])
  }

  /** `alloc_chunk`: a rest that can hold a header and two bytes becomes a free chunk. The rest has 32 bits. */
  function Carve(m: Heap, a: nat, size: nat): Heap
    requires a in m
  {
    var rest := (m[a].size - size) % U32;
    if rest < HEADER + 2 then m[a := m[a].(used := true)]
    else m[a + size := Chunk(m[a].next, rest, false)][a := Chunk(a + size, size, true)]
  }

  lemma CarveSpec(m: Heap, base: nat, a: nat, size: nat)
    requires var end := base + ARENA; Tiled(m, base, a, end) && Tiled(m, a, end, end) && a < end
    requires !m[a].used && HEADER <= size <= m[a].size && size % 2 == 0
    ensures var m' := Carve(m, a, size);
      && a in m' && m'[a].size >= size && Arena(m, base) && Arena(m', base)
      && ArenaLive(m', base) == ArenaLive(m, base) + {Extent(a, m'[a].size)}
      && OutsideSame(m, m', base, base + ARENA)
  {
    var end, m' := base + ARENA, Carve(m, a, size);
    var next := a + m[a].size;
    TiledOrder(m, base, a, end);
    TiledOrder(m, next, end, end);
    CarvedChunks(m, a, size, end);
    assert SameBetween(m, m', base, a) && SameBetween(m, m', next, end) && OutsideSame(m, m', base, end);
    CarvedLive(m, m', base, a, size);
  }

  lemma CarvedLive(m: Heap, m': Heap, base: nat, a: nat, size: nat)
    requires var end := base + ARENA;
      && Tiled(m, base, a, end) && Linked(m, a, end) && Linked(m', a, end) && !m[a].used && m'[a].used
      && Tiled(m, a + m[a].size, end, end) && SameBetween(m, m', base, a) && SameBetween(m, m', a + m[a].size, end)
      && (m'[a].size != m[a].size ==>
        m'[a].size == size && Linked(m', a + size, end) && !m'[a + size].used && size + m'[a + size].size == m[a].size)
    ensures Arena(m, base) && Arena(m', base) && ArenaLive(m', base) == ArenaLive(m, base) + {Extent(a, m'[a].size)}
  {
    var end, next := base + ARENA, a + m[a].size;
    CarvedRest(m, m', a, size, end);
    TakeChunk(m, m', base, a);
  }

  lemma CarvedRest(m: Heap, m': Heap, a: nat, size: nat, end: nat)
    requires Linked(m, a, end) && Linked(m', a, end) && Tiled(m, a + m[a].size, end, end)
    requires SameBetween(m, m', a + m[a].size, end)
    requires m'[a].size != m[a].size ==>
      m'[a].size == size && Linked(m', a + size, end) && !m'[a + size].used && size + m'[a + size].size == m[a].size
    ensures Tiled(m', a + m'[a].size, end, end)
    ensures LiveIn(m', a + m'[a].size, end, end) == LiveIn(m, a + m[a].size, end, end)
  {
    assert a in m && a in m';
    hide Tiled, LiveIn, Linked;
    TiledFrame(m, m', a + m[a].size, end, end);
    if m'[a].size != m[a].size { TiledStep(m', a + size, end, end); }
  }

  /** Chunk `a` comes into use; what lies before and behind it stays live. */
  lemma TakeChunk(m: Heap, m': Heap, base: nat, a: nat)
    requires var end := base + ARENA;
      && Tiled(m, base, a, end) && Linked(m, a, end) && Linked(m', a, end)
      && !m[a].used && m'[a].used && SameBetween(m, m', base, a)
      && Tiled(m, a + m[a].size, end, end) && Tiled(m', a + m'[a].size, end, end)
      && LiveIn(m', a + m'[a].size, end, end) == LiveIn(m, a + m[a].size, end, end)
    ensures Arena(m, base) && Arena(m', base) && ArenaLive(m', base) == ArenaLive(m, base) + {Extent(a, m'[a].size)}
  {
    var end := base + ARENA;
    hide Tiled, LiveIn, Linked, SameBetween;
    TiledFrame(m, m', base, a, end);
    TiledStep(m, a, end, end);
    TiledJoin(m, base, a, end, end);
    TiledStep(m', a, end, end);
    TiledJoin(m', base, a, end, end);
  }

  lemma CarvedChunks(m: Heap, a: nat, size: nat, end: nat)
    requires Tiled(m, a, end, end) && a < end && !m[a].used && HEADER <= size <= m[a].size <= ARENA && size % 2 == 0
    ensures var m' := Carve(m, a, size);
      && Linked(m, a, end) && Linked(m', a, end) && m'[a].used && !m[a].used && m'[a].size >= size
      && (m'[a].size != m[a].size ==>
        m'[a].size == size && Linked(m', a + size, end) && !m'[a + size].used && size + m'[a + size].size == m[a].size)
      && Tiled(m, a + m[a].size, end, end) && OutsideSame(m, m', a, a + m[a].size)
  {
  }

  /** `free`: the chunk `a` takes in everything up to `b`. */
  function Joined(m: Heap, a: nat, b: nat, end: nat): Heap
    requires a in m && a <= b
  {
    m[a := Chunk(if b == end then 0 else b, b - a, false)]
  }

  lemma JoinedSpec(m: Heap, base: nat, a: nat, b: nat)
    requires var end := base + ARENA; Tiled(m, base, a, end) && Tiled(m, a, end, end) && a < end
    requires var end, next := base + ARENA, a + m[a].size;
      && next <= b && (b - a) % 2 == 0 && Tiled(m, next, b, end)
      && Tiled(m, b, end, end) && LiveIn(m, next, b, end) == {}
    requires m[a].used
    ensures var m' := Joined(m, a, b, base + ARENA);
      && Arena(m, base) && Arena(m', base) && Extent(a, m[a].size) in ArenaLive(m, base)
      && ArenaLive(m', base) == ArenaLive(m, base) - {Extent(a, m[a].size)}
      && OutsideSame(m, m', base, base + ARENA)
  {
    var end, next, m' := base + ARENA, a + m[a].size, Joined(m, a, b, base + ARENA);
    TiledOrder(m, base, a, end);
    TiledOrder(m, b, end, end);
    assert Linked(m, a, end) && Linked(m', a, end) && m'[a].size == b - a;
    assert Self(m'[a], a) == {} && Self(m[a], a) == {Extent(a, m[a].size)};
    assert SameBetween(m, m', base, a) && SameBetween(m, m', b, end) && OutsideSame(m, m', base, end);
    JoinedLive(m, m', base, a, b);
  }

  lemma JoinedLive(m: Heap, m': Heap, base: nat, a: nat, b: nat)
    requires var end := base + ARENA;
      && Tiled(m, base, a, end) && Linked(m, a, end) && Linked(m', a, end) && a + m'[a].size == b
      && SameBetween(m, m', base, a) && SameBetween(m, m', b, end)
    requires var end, next := base + ARENA, a + m[a].size;
      Tiled(m, next, b, end) && Tiled(m, b, end, end) && LiveIn(m, next, b, end) == {}
    requires Self(m'[a], a) == {} && Self(m[a], a) == {Extent(a, m[a].size)} && m[a].size >= HEADER && a < b
    ensures Arena(m, base) && Arena(m', base) && Extent(a, m[a].size) in ArenaLive(m, base)
    ensures ArenaLive(m', base) == ArenaLive(m, base) - {Extent(a, m[a].size)}
  {
    hide Tiled, LiveIn, Linked, Self, SameBetween;
    var end := base + ARENA;
    HeaderIn(m, a, end);
    HeaderIn(m', a, end);
    var next := a + m[a].size;
    TiledFrame(m, m', base, a, end);
    TiledFrame(m, m', b, end, end);
    TiledJoin(m, next, b, end, end);
    TiledStep(m, a, end, end);
    TiledJoin(m, base, a, end, end);
    TiledStep(m', a, end, end);
    TiledJoin(m', base, a, end, end);
    var e := Extent(a, m[a].size);
    NotOutside(m, base, a, b, end, e);
    WithoutMiddle(LiveIn(m, base, a, end), e, LiveIn(m, b, end, end));
  }

  lemma FirstIn(m: Heap, base: nat, a: nat)
    requires var end := base + ARENA; Tiled(m, base, a, end) && Tiled(m, a, end, end) && a < end
    ensures a in m && m[a].size <= ARENA
  {
    TiledOrder(m, base, a, base + ARENA);
  }

  lemma HeaderIn(m: Heap, a: nat, end: nat)
    requires Linked(m, a, end)
    ensures a in m
  {
  }

  lemma WithoutMiddle(x: set<Extent>, e: Extent, y: set<Extent>)
    requires e !in x && e !in y
    ensures x + ({e} + ({} + y)) - {e} == x + ({} + y)
  {
  }

  lemma NotOutside(m: Heap, base: nat, a: nat, b: nat, end: nat, e: Extent)
    requires Tiled(m, base, a, end) && Tiled(m, b, end, end) && e.at == a && e.size >= HEADER && a < b
    ensures e !in LiveIn(m, base, a, end) && e !in LiveIn(m, b, end, end)
  {
    if e in LiveIn(m, base, a, end) { LiveInside(m, base, a, end, e); }
    if e in LiveIn(m, b, end, end) { LiveInside(m, b, end, end, e); }
  }

  /** A change inside arena `k` leaves the other arenas alone. */
  lemma OthersKeep(m: Heap, m': Heap, bases: seq<nat>, brk: nat, k: nat)
    requires Arenas(m, bases, brk) && k < |bases| && Arena(m', bases[k])
    requires OutsideSame(m, m', bases[k], bases[k] + ARENA)
    ensures Arenas(m', bases, brk)
    ensures forall i: nat :: i < |bases| && i != k ==> ArenaLive(m', bases[i]) == ArenaLive(m, bases[i])
  {
    forall i: nat | i < |bases| && i != k
      ensures Arena(m', bases[i]) && ArenaLive(m', bases[i]) == ArenaLive(m, bases[i])
    {
      assert SameBetween(m, m', bases[i], bases[i] + ARENA);
      hide Tiled, LiveIn, SameBetween;
      TiledFrame(m, m', bases[i], bases[i] + ARENA, bases[i] + ARENA);
    }
  }

  lemma LiveAdded(m: Heap, m': Heap, bases: seq<nat>, brk: nat, k: nat, e: Extent)
    requires Arenas(m, bases, brk) && k < |bases| && Arena(m', bases[k])
    requires OutsideSame(m, m', bases[k], bases[k] + ARENA)
    requires ArenaLive(m', bases[k]) == ArenaLive(m, bases[k]) + {e}
    ensures Arenas(m', bases, brk) && Live(m', bases, brk) == Live(m, bases, brk) + {e}
  {
    OthersKeep(m, m', bases, brk, k);
    hide Tiled, LiveIn, SameBetween, OutsideSame, ArenaLive, Arena;
    forall f ensures f in Live(m', bases, brk) <==> f in Live(m, bases, brk) + {e} {
      if f in Live(m, bases, brk) {
        var i: nat :| i < |bases| && f in ArenaLive(m, bases[i]);
        assert f in ArenaLive(m', bases[i]);
      }
      assert e in ArenaLive(m', bases[k]);
      if f in Live(m', bases, brk) && f != e {
        var i: nat :| i < |bases| && f in ArenaLive(m', bases[i]);
        assert f in ArenaLive(m, bases[i]);
      }
    }
  }

  lemma LiveRemoved(m: Heap, m': Heap, bases: seq<nat>, brk: nat, k: nat, e: Extent)
    requires Arenas(m, bases, brk) && k < |bases| && Arena(m', bases[k])
    requires OutsideSame(m, m', bases[k], bases[k] + ARENA)
    requires e in ArenaLive(m, bases[k]) && ArenaLive(m', bases[k]) == ArenaLive(m, bases[k]) - {e}
    ensures Arenas(m', bases, brk) && Live(m', bases, brk) == Live(m, bases, brk) - {e}
  {
    OthersKeep(m, m', bases, brk, k);
    forall i: nat | i < |bases| ensures i == k || e !in ArenaLive(m, bases[i]) {
      OnlyHere(m, bases, brk, k, i, e);
    }
    hide Tiled, LiveIn, SameBetween, OutsideSame, ArenaLive, Arena;
    forall f ensures f in Live(m', bases, brk) <==> f in Live(m, bases, brk) - {e} {
      if f in Live(m, bases, brk) && f != e {
        var i: nat :| i < |bases| && f in ArenaLive(m, bases[i]);
        assert f in ArenaLive(m', bases[i]);
      }
      if f in Live(m', bases, brk) {
        var i: nat :| i < |bases| && f in ArenaLive(m', bases[i]);
        assert f in ArenaLive(m, bases[i]);
      }
    }
  }

  lemma OnlyHere(m: Heap, bases: seq<nat>, brk: nat, k: nat, i: nat, e: Extent)
    requires Arenas(m, bases, brk) && k < |bases| && i < |bases| && e in ArenaLive(m, bases[k])
    ensures i == k || e !in ArenaLive(m, bases[i])
  {
    LiveInside(m, bases[k], bases[k] + ARENA, bases[k] + ARENA, e);
    if e in ArenaLive(m, bases[i]) {
      LiveInside(m, bases[i], bases[i] + ARENA, bases[i] + ARENA, e);
    }
  }

  /** A new arena is one free chunk. */
  lemma NewArena(m: Heap, bases: seq<nat>, brk: nat)
    requires Arenas(m, bases, brk) && brk > 0
    ensures var m' := m[brk := Chunk(0, ARENA, false)];
      && Arena(m', brk) && ArenaLive(m', brk) == {} && Linked(m', brk, brk + ARENA)
      && Arenas(m', bases + [brk], brk + ARENA) && Live(m', bases + [brk], brk + ARENA) == Live(m, bases, brk)
  {
    var m', bases' := m[brk := Chunk(0, ARENA, false)], bases + [brk];
    TiledEmpty(m', brk + ARENA, brk + ARENA);
    TiledStep(m', brk, brk + ARENA, brk + ARENA);
    forall i: nat | i < |bases| ensures Arena(m', bases[i]) && ArenaLive(m', bases[i]) == ArenaLive(m, bases[i]) {
      TiledFrame(m, m', bases[i], bases[i] + ARENA, bases[i] + ARENA);
    }
    hide Tiled, LiveIn, ArenaLive, Arena, Linked;
    assert Arenas(m', bases', brk + ARENA);
    forall f ensures f in Live(m', bases', brk + ARENA) <==> f in Live(m, bases, brk) {
      if f in Live(m, bases, brk) {
        var i: nat :| i < |bases| && f in ArenaLive(m, bases[i]);
        assert f in ArenaLive(m', bases'[i]);
      }
      if f in Live(m', bases', brk + ARENA) {
        var i: nat :| i < |bases'| && f in ArenaLive(m', bases'[i]);
        assert i < |bases|;
        assert f in ArenaLive(m, bases[i]);
      }
    }
  }

  /** A chunk that is not in use is not live. */
  lemma UnusedNotLive(m: Heap, bases: seq<nat>, brk: nat, e: Extent)
    requires Arenas(m, bases, brk) && e.at in m && !m[e.at].used
    ensures e !in Live(m, bases, brk)
  {
    forall i: nat | i < |bases| ensures e !in ArenaLive(m, bases[i]) {
      if e in ArenaLive(m, bases[i]) { LiveInside(m, bases[i], bases[i] + ARENA, bases[i] + ARENA, e); }
    }
  }

  /** The size of the chunk that `alloc_chunk` hands out: a rest too small for a header stays with it. */
  function Granted(whole: nat, size: nat): nat
    requires size <= whole
  {
    if whole - size < HEADER + 2 then whole else size
  }

  /** No free chunk from `a` to `b` is large enough. */
  predicate NoFit(m: Heap, a: nat, b: nat, end: nat, size: nat)
    requires Tiled(m, a, b, end)
    decreases b - a
  {
    a == b || ((m[a].used || m[a].size < size) && NoFit(m, a + m[a].size, b, end, size))
  }

  /** The chunk at `at` is the first free one of the arena that is large enough. */
  ghost predicate FirstFit(m: Heap, base: nat, at: nat, size: nat) {
    && Tiled(m, base, at, base + ARENA) && NoFit(m, base, at, base + ARENA, size)
    && at in m && !m[at].used && m[at].size >= size
  }

  lemma {:induction false} NoFitJoin(m: Heap, a: nat, b: nat, c: nat, end: nat, size: nat)
    requires Tiled(m, a, b, end) && Tiled(m, b, c, end) && Tiled(m, a, c, end)
    ensures NoFit(m, a, c, end, size) <==> NoFit(m, a, b, end, size) && NoFit(m, b, c, end, size)
    decreases b - a
  {
    TiledOrder(m, b, c, end);
    if a < b { NoFitJoin(m, a + m[a].size, b, c, end, size); }
  }

  lemma NoFitStart(m: Heap, a: nat, end: nat, size: nat)
    ensures Tiled(m, a, a, end) && NoFit(m, a, a, end, size)
  {
  }

  lemma NoFitStep(m: Heap, base: nat, at: nat, end: nat, size: nat)
    requires Tiled(m, base, at, end) && Tiled(m, at, end, end) && at < end && NoFit(m, base, at, end, size)
    requires m[at].used || m[at].size < size
    ensures var next := at + m[at].size;
      next <= end && Tiled(m, base, next, end) && Tiled(m, next, end, end) && NoFit(m, base, next, end, size)
  {
    var next := at + m[at].size;
    TiledEmpty(m, next, end);
    TiledStep(m, at, next, end);
    TiledJoin(m, base, at, next, end);
    TiledOrder(m, next, end, end);
    NoFitJoin(m, base, at, next, end, size);
  }

  lemma FitHere(m: Heap, base: nat, at: nat, end: nat, size: nat)
    requires Tiled(m, base, at, end) && Tiled(m, at, end, end) && at < end && !m[at].used && m[at].size >= size
    ensures Tiled(m, base, end, end) && !NoFit(m, base, end, end, size)
  {
    TiledJoin(m, base, at, end, end);
    NoFitJoin(m, base, at, end, end, size);
  }

  function Align2(n: nat): nat { (n + 1) / 2 * 2 }

  const LARGEST: nat := ARENA - HEADER  // the largest request that fits into an arena

  /** The size that `malloc` computes from its argument, in 32 bits. */
  function RequestSize(n: nat): nat { ((n + HEADER) % U32 + 1) % U32 / 2 * 2 }

  lemma SizeOf(n: nat)
    requires n + HEADER + 1 < U32
    ensures RequestSize(n) == Align2(n + HEADER) < U32 && n + HEADER <= RequestSize(n)
    ensures RequestSize(n) % 2 == 0 && (RequestSize(n) <= ARENA <==> n <= LARGEST)
  {
  }

  /** A chunk cut from a new arena of one free chunk leaves it tiled exactly when it fits. */
  lemma FreshArena(m: Heap, b: nat, size: nat)
    requires b in m && m[b] == Chunk(0, ARENA, false) && size < U32 && size % 2 == 0
    ensures Arena(Carve(m, b, size), b) <==> HEADER <= size <= ARENA
    ensures size > ARENA ==> Carve(m, b, size)[b].size == size
  {
    var m' := Carve(m, b, size);
    TiledEmpty(m', b + ARENA, b + ARENA);
    if HEADER <= size <= ARENA {
      if m'[b].size == size && size < ARENA { TiledStep(m', b + size, b + ARENA, b + ARENA); }
      TiledStep(m', b, b + ARENA, b + ARENA);
    }
  }

  /** Over all arguments: the size fits into an arena up to 4084 bytes, and for the one argument that wraps to 12. */
  lemma SizeFits(n: nat)
    requires n < U32
    ensures RequestSize(n) < U32 && RequestSize(n) % 2 == 0
    ensures HEADER <= RequestSize(n) <= ARENA <==> n <= LARGEST || n == U32 - 1
  {
    if n + HEADER + 1 < U32 {
      SizeOf(n);
    } else if n + HEADER >= U32 {
      assert (n + HEADER) % U32 == n + HEADER - U32;
    }
  }

  /**
   Over all arguments of `malloc`: a new arena survives the request exactly up to 4084 bytes, and for
   the largest argument, which is given a chunk without payload.
   */
  lemma NewArenaSurvives(m: Heap, b: nat, n: nat)
    requires n < U32
    ensures Arena(Carve(m[b := Chunk(0, ARENA, false)], b, RequestSize(n)), b) <==> n <= LARGEST || n == U32 - 1
  {
    hide RequestSize, Carve, Arena;
    SizeFits(n);
    FreshArena(m[b := Chunk(0, ARENA, false)], b, RequestSize(n));
  }

  /** A request of one byte more: the chunk and the header behind it lie outside the arena. */
  lemma LargeRequestLeavesArena(m: Heap, b: nat)
    ensures var m' := Carve(m[b := Chunk(0, ARENA, false)], b, RequestSize(LARGEST + 1));
      && !Arena(m', b) && b in m' && m'[b] == Chunk(b + ARENA + 2, ARENA + 2, true)
      && b + ARENA + 2 in m' && m'[b + ARENA + 2] == Chunk(0, U32 - 2, false)
  {
    NewArenaSurvives(m, b, LARGEST + 1);
  }

  class Allocator {
    var heap: Heap
    var head: nat
    var tail: nat
    var brk: nat                       // where `sbrk` takes the next arena from
    ghost var bases: seq<nat>

    ghost predicate Valid()
      reads this
    {
      brk > 0 && Arenas(heap, bases, brk) && head == if bases == [] then 0 else bases[0]
    }

    ghost function LiveChunks(): set<Extent>
      requires Valid()
      reads this
    {
      Live(heap, bases, brk)
    }

    constructor (brk: nat)
      requires brk > 0
      ensures Valid() && LiveChunks() == {} && bases == [] && head == 0 && this.brk == brk
    {
      heap, head, tail, this.brk, bases := map[], 0, 0, brk, [];
    }

    /** `alloc_chunk` */
    method AllocChunk(a: nat, size: nat, ghost k: nat) returns (p: nat)
      requires Valid() && k < |bases| && size >= HEADER && size % 2 == 0
      requires var base := bases[k];
        Tiled(heap, base, a, base + ARENA) && Tiled(heap, a, base + ARENA, base + ARENA) && a < base + ARENA
      requires !heap[a].used
      modifies `heap, `tail
      ensures p == a + HEADER && a in old(heap) && a in heap && heap == Carve(old(heap), a, size)
      ensures old(heap)[a].size >= size ==>
        && Valid() && heap[a].size == Granted(old(heap)[a].size, size) >= size && heap[a].size < size + 14
        && (heap[a].size < old(heap)[a].size ==> heap[a].size == size && old(heap)[a].size - size >= 14)
        && var e := Extent(a, heap[a].size); e !in old(LiveChunks()) && LiveChunks() == old(LiveChunks()) + {e}
    {
      hide Tiled, LiveIn, Arenas, Live;
      FirstIn(heap, bases[k], a);
      ghost var m := Carve(heap, a, size);
      if heap[a].size >= size {
        CarveSpec(heap, bases[k], a, size);
        LiveAdded(heap, m, bases, brk, k, Extent(a, m[a].size));
        UnusedNotLive(heap, bases, brk, Extent(a, m[a].size));
      }
      var rest := (heap[a].size - size) % U32;
      if rest < HEADER + 2 {
        heap := heap[a := heap[a].(used := true)];
      } else {
        heap := heap[a + size := Chunk(heap[a].next, rest, false)];
        heap := heap[a := Chunk(a + size, size, true)];
        if a == tail { tail := a + size; }
      }
      p := a + HEADER;
    }

    /**
     `malloc`: the payload is not smaller than asked for and overlaps no other one. It is cut from
     the first free chunk of the first arena that is large enough, or from a new arena. The arenas
     stay tiled exactly when the request fits into one; a larger one is given a chunk that leaves it.
     */
    method Malloc(n: nat) returns (p: nat)
      requires Valid() && n + HEADER + 1 < U32
      modifies this
      ensures p >= HEADER && p - HEADER in heap && heap[p - HEADER].size >= n + HEADER
      ensures Valid() <==> n <= LARGEST
      ensures n <= LARGEST ==> heap[p - HEADER].size < Align2(n + HEADER) + 14
      ensures n <= LARGEST ==>
        var e := Extent(p - HEADER, heap[p - HEADER].size);
        && e !in old(LiveChunks()) && LiveChunks() == old(LiveChunks()) + {e}
        && forall f :: f in old(LiveChunks()) ==> Apart(e, f)
      ensures var size := Align2(n + HEADER);
        if old(head) == 0 || NoFit(old(heap), old(head), old(head) + ARENA, old(head) + ARENA, size) then
          && p == old(brk) + HEADER && bases == old(bases) + [old(brk)]
          && heap[p - HEADER].size == if size <= ARENA then Granted(ARENA, size) else size
        else
          && FirstFit(old(heap), old(head), p - HEADER, size) && bases == old(bases)
          && heap[p - HEADER].size == Granted(old(heap)[p - HEADER].size, size)
    {
      hide RequestSize, Align2, LiveIn, Live, ArenaLive;
      var size := RequestSize(n);
      SizeOf(n);
      ghost var old_ := LiveChunks();
      ghost var end := head + ARENA;
      if head != 0 {
        var hdr := head;
        ghost var at := head;
        StartOfChain(heap, head);
        NoFitStart(heap, head, end, size);
        while hdr != 0
          invariant heap == old(heap) && bases == old(bases)
          invariant head == old(head) && brk == old(brk) && tail == old(tail)
          invariant at <= end && hdr == (if at == end then 0 else at)
          invariant Tiled(heap, head, at, end) && Tiled(heap, at, end, end) && NoFit(heap, head, at, end, size)
          decreases end - at
        {
          NextInChain(heap, head, hdr, end);
          if !heap[hdr].used && heap[hdr].size >= size {
            FitHere(heap, head, hdr, end, size);
            p := AllocChunk(hdr, size, 0);
            AllApart(heap, bases, brk, old_, Extent(hdr, heap[hdr].size));
            return;
          }
          NoFitStep(heap, head, hdr, end, size);
          at := at + heap[hdr].size;
          hdr := heap[hdr].next;
        }
      }
      p := AllocInNewArena(size);
      if size <= ARENA {
        AllApart(heap, bases, brk, old_, Extent(p - HEADER, heap[p - HEADER].size));
      }
    }

    /** Lines 67-72: a new arena, and the request is served from it. */
    method AllocInNewArena(size: nat) returns (p: nat)
      requires Valid() && HEADER <= size < U32 && size % 2 == 0
      modifies this
      ensures p == old(brk) + HEADER && bases == old(bases) + [old(brk)] && p - HEADER in heap
      ensures heap[p - HEADER].size == (if size <= ARENA then Granted(ARENA, size) else size) >= size
      ensures Valid() <==> size <= ARENA
      ensures size <= ARENA ==> heap[p - HEADER].size < size + 14
      ensures size <= ARENA ==>
        var e := Extent(p - HEADER, heap[p - HEADER].size);
        e !in old(LiveChunks()) && LiveChunks() == old(LiveChunks()) + {e}
    {
      NewArena(heap, bases, brk);
      var b := brk;
      heap, bases, brk := heap[b := Chunk(0, ARENA, false)], bases + [b], b + ARENA;
      if head == 0 { head := b; }
      tail := b;
      StartOfChain(heap, b);
      FreshArena(heap, b, size);
      p := AllocChunk(b, size, |bases| - 1);
      assert bases[|bases| - 1] == b;
    }

    /** `free` of a payload that is in use: only this chunk is given back, merged with the free chunks behind it. */
    method Free(p: nat)
      requires Valid() && p >= HEADER && exists e :: e in LiveChunks() && e.at == p - HEADER
      modifies `heap, `tail
      ensures Valid() && var a := p - HEADER;
        && a in old(heap) && a in heap && !heap[a].used && heap[a].size >= old(heap)[a].size
        && LiveChunks() == old(LiveChunks()) - {Extent(a, old(heap)[a].size)}
        && (heap[a].next != 0 ==> heap[a].next in heap && heap[heap[a].next].used)
    {
      hide Tiled, LiveIn, Arenas, Live, Linked;
      var a := p - HEADER;
      ghost var k := Locate(heap, bases, brk, a);
      ghost var base, end := bases[k], bases[k] + ARENA;
      var next, size := heap[a].next, heap[a].size;
      ghost var m := heap;
      var q, total := FreeRun(heap, next, size, a + size, end);
      FreedSpec(heap, bases, brk, k, a, a + total);
      heap := heap[a := heap[a].(used := false)];
      if q != next {
        heap := heap[a := heap[a].(next := q, size := total)];
        if q == 0 { tail := a; }
      }
      assert heap == Joined(m, a, a + total, end);
    }
  }

  /** The loop of `free`: the free chunks from `from` on, up to `to`. */
  method FreeRun(m: Heap, first: nat, size: nat, ghost from: nat, ghost end: nat) returns (p: nat, total: nat)
    requires Tiled(m, from, end, end) && first == (if from == end then 0 else from) && size % 2 == 0
    ensures total >= size && total % 2 == 0
    ensures var to := from + (total - size);
      && p == (if to == end then 0 else to) && Tiled(m, from, to, end)
      && Tiled(m, to, end, end) && LiveIn(m, from, to, end) == {}
      && (p != 0 ==> p in m && m[p].used)
  {
    p, total := first, size;
    ghost var to := from;
    TiledEmpty(m, from, end);
    TiledOrder(m, from, end, end);
    hide LiveIn;
    while p != 0 && !m[p].used
      invariant from <= to <= end && total == size + (to - from) && total % 2 == 0 && p == (if to == end then 0 else to)
      invariant Tiled(m, from, to, end) && Tiled(m, to, end, end) && LiveIn(m, from, to, end) == {}
      decreases end - to
    {
      ghost var next := to + m[to].size;
      TiledEmpty(m, next, end);
      TiledStep(m, to, next, end);
      TiledJoin(m, from, to, next, end);
      TiledOrder(m, next, end, end);
      total := total + m[p].size;
      p := m[p].next;
      to := next;
    }
  }

  lemma StartOfChain(m: Heap, base: nat)
    requires Arena(m, base)
    ensures Tiled(m, base, base, base + ARENA) && Tiled(m, base, base + ARENA, base + ARENA)
  {
  }

  /** The `next` pointer leads along the chain, or is NULL at its end. */
  lemma NextInChain(m: Heap, base: nat, a: nat, end: nat)
    requires Tiled(m, base, a, end) && Tiled(m, a, end, end) && a < end
    ensures a in m && 0 < m[a].size <= end - base && m[a].next == (if a + m[a].size == end then 0 else a + m[a].size)
  {
    TiledOrder(m, base, a, end);
  }

  lemma AllApart(m: Heap, bases: seq<nat>, brk: nat, live: set<Extent>, e: Extent)
    requires Arenas(m, bases, brk) && Live(m, bases, brk) == live + {e} && e !in live
    ensures forall f :: f in live ==> Apart(e, f)
  {
    forall f | f in live ensures Apart(e, f) {
      LiveDisjoint(m, bases, brk, e, f);
    }
  }

  /** A live chunk lies on the chain of some arena. */
  lemma Locate(m: Heap, bases: seq<nat>, brk: nat, a: nat) returns (k: nat)
    requires Arenas(m, bases, brk) && exists e :: e in Live(m, bases, brk) && e.at == a
    ensures k < |bases| && var base, end := bases[k], bases[k] + ARENA;
      && Tiled(m, base, a, end) && Tiled(m, a, end, end) && a < end
      && a in m && m[a].used && m[a].size % 2 == 0 && m[a].size >= HEADER
      && m[a].next == (if a + m[a].size == end then 0 else a + m[a].size) && Tiled(m, a + m[a].size, end, end)
  {
    var e :| e in Live(m, bases, brk) && e.at == a;
    k :| k < |bases| && e in ArenaLive(m, bases[k]);
    LiveInside(m, bases[k], bases[k] + ARENA, bases[k] + ARENA, e);
  }

  lemma FreedSpec(m: Heap, bases: seq<nat>, brk: nat, k: nat, a: nat, b: nat)
    requires Arenas(m, bases, brk) && k < |bases|
    requires var end := bases[k] + ARENA;
      && Tiled(m, bases[k], a, end) && Tiled(m, a, end, end) && a < end && a in m && m[a].used
      && a + m[a].size <= b && (b - a) % 2 == 0
      && Tiled(m, a + m[a].size, b, end) && Tiled(m, b, end, end) && LiveIn(m, a + m[a].size, b, end) == {}
    ensures var m' := Joined(m, a, b, bases[k] + ARENA);
      Arenas(m', bases, brk) && Live(m', bases, brk) == Live(m, bases, brk) - {Extent(a, m[a].size)}
  {
    JoinedSpec(m, bases[k], a, b);
    hide *;
    LiveRemoved(m, Joined(m, a, b, bases[k] + ARENA), bases, brk, k, Extent(a, m[a].size));
  }
}
