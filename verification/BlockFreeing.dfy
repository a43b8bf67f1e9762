/**
 Freeing all blocks of a file (kernel/fs/ext2/block.c:238-270): which blocks the recursive
 walk reaches, and that it reaches all of them exactly when no pointer table has a gap.
 */
module BlockFreeing {
  import opened BlockTree

  function Child(p: Path, i: nat): Path { p + [i] }

  /** The blocks that `free_ptr` clears from the node at `p` on, which must be present. */
  ghost function FreedAt(t: Tree, p: Path): set<nat>
    requires |t.blocks| == N_BLOCKS && IsPath(t.n, p)
    decreases Depth(p[0]) + 1 - |p|, t.n + 1
  {
    {Value(t, p)} + if IsLeaf(t.n, p) then {} else FreedFrom(t, p, 0)
  }

  /** The loop of `free_ptr` over a table from entry `i` on: it stops at the first empty entry. */
  ghost function FreedFrom(t: Tree, p: Path, i: nat): set<nat>
    requires |t.blocks| == N_BLOCKS && IsPath(t.n, p) && !IsLeaf(t.n, p) && i <= t.n
    decreases Depth(p[0]) + 1 - |p|, t.n - i
  {
    if i == t.n || Value(t, Child(p, i)) == 0 then {}
    else FreedAt(t, Child(p, i)) + FreedFrom(t, p, i + 1)
  }

  /** The loops of `free_blocks` over the slots of the inode from `slot` on. */
  ghost function FreedSlots(t: Tree, slot: nat): set<nat>
    requires |t.blocks| == N_BLOCKS && slot <= N_BLOCKS
    decreases N_BLOCKS - slot
  {
    if slot == N_BLOCKS then {}
    else (if t.blocks[slot] == 0 then {} else FreedAt(t, [slot])) + FreedSlots(t, slot + 1)
  }

  /** Entry `i` of the table at `p` is empty while a later entry `j` is not. */
  ghost predicate Gap(t: Tree, p: Path, i: nat, j: nat)
    requires |t.blocks| == N_BLOCKS
  {
    && IsPath(t.n, p) && !IsLeaf(t.n, p) && i < j < t.n
    && Value(t, Child(p, i)) == 0 && Value(t, Child(p, j)) != 0
  }

  ghost predicate GapFree(t: Tree)
    requires |t.blocks| == N_BLOCKS
  {
    forall p, i: nat, j: nat :: !Gap(t, p, i, j)
  }

  /** From `p` down to `q`, the walk meets no empty entry before the one it needs. */
  ghost predicate Open(t: Tree, p: Path, q: Path)
    requires |t.blocks| == N_BLOCKS && |p| >= 1 && p <= q && p[0] < N_BLOCKS
  {
    forall k, i: nat :: |p| <= k < |q| && i < q[k] ==> Value(t, Child(q[..k], i)) != 0
  }

  /** `q` is a present node below `p` that the walk from `p` reaches. */
  ghost predicate Reaches(t: Tree, p: Path, q: Path, b: nat)
    requires |t.blocks| == N_BLOCKS && IsPath(t.n, p)
  {
    IsPath(t.n, q) && p <= q && b != 0 && Value(t, q) == b && Open(t, p, q)
  }

  lemma {:induction false} FreedAtReached(t: Tree, p: Path, b: nat)
    requires |t.blocks| == N_BLOCKS && IsPath(t.n, p) && Value(t, p) != 0 && b in FreedAt(t, p)
    ensures exists q :: Reaches(t, p, q, b)
    decreases Depth(p[0]) + 1 - |p|, t.n + 1
  {
    if b == Value(t, p) {
      assert Reaches(t, p, p, b);
    } else {
      FreedFromReached(t, p, 0, b);
    }
  }

  lemma {:induction false} FreedFromReached(t: Tree, p: Path, i: nat, b: nat)
    requires |t.blocks| == N_BLOCKS && IsPath(t.n, p) && !IsLeaf(t.n, p) && i <= t.n && b in FreedFrom(t, p, i)
    requires forall j: nat :: j < i ==> Value(t, Child(p, j)) != 0
    ensures exists q :: Reaches(t, p, q, b) && |p| < |q| && q[|p|] >= i
    decreases Depth(p[0]) + 1 - |p|, t.n - i
  {
    hide Reaches, Value, FreedAt;
    var c := Child(p, i);
    if b in FreedAt(t, c) {
      FreedAtReached(t, c, b);
      var q :| Reaches(t, c, q, b);
      ReachesUp(t, p, i, q, b);
    } else {
      FreedFromReached(t, p, i + 1, b);
    }
  }

  /** What is reached from a child is reached from its parent, if no entry before it is empty. */
  lemma ReachesUp(t: Tree, p: Path, i: nat, q: Path, b: nat)
    requires |t.blocks| == N_BLOCKS && IsPath(t.n, p) && !IsLeaf(t.n, p) && i < t.n && IsPath(t.n, Child(p, i))
    requires forall j: nat :: j < i ==> Value(t, Child(p, j)) != 0
    requires Reaches(t, Child(p, i), q, b)
    ensures Reaches(t, p, q, b) && |p| < |q| && q[|p|] == i
  {
    hide Value;
    var c := Child(p, i);
    assert q[|p|] == c[|p|] == i && q[..|p|] == p;
    forall k, j: nat | |p| <= k < |q| && j < q[k] ensures Value(t, Child(q[..k], j)) != 0 {
      if k > |p| { assert |c| <= k; }
    }
  }

  lemma {:induction false} FreedFromIncludes(t: Tree, p: Path, i: nat, j: nat)
    requires |t.blocks| == N_BLOCKS && IsPath(t.n, p) && !IsLeaf(t.n, p) && i <= j < t.n
    requires forall k: nat :: i <= k <= j ==> Value(t, Child(p, k)) != 0
    ensures IsPath(t.n, Child(p, j)) && FreedAt(t, Child(p, j)) <= FreedFrom(t, p, i)
    decreases j - i
  {
    if i < j { FreedFromIncludes(t, p, i + 1, j); }
  }

  /** The walk from a present node clears every node it can reach without meeting a gap. */
  lemma {:induction false} OpenIsFreed(t: Tree, p: Path, q: Path)
    requires |t.blocks| == N_BLOCKS && IsPath(t.n, p) && IsPath(t.n, q) && p <= q
    requires Value(t, q) != 0 && Open(t, p, q)
    ensures Value(t, q) in FreedAt(t, p)
    decreases |q| - |p|
  {
    if |p| < |q| {
      var c := q[..|p| + 1];
      var i := q[|p|];
      assert q[..|p|] == p && c == Child(p, i);
      OpenIsFreed(t, c, q);
      PrefixNonzero(t, c, q);
      forall k: nat | k <= i ensures Value(t, Child(p, k)) != 0 {
        if k < i { assert Value(t, Child(q[..|p|], k)) != 0; }
      }
      FreedFromIncludes(t, p, 0, i);
    } else {
      assert p == q;
    }
  }

  lemma PrefixNonzero(t: Tree, p: Path, q: Path)
    requires |t.blocks| == N_BLOCKS && |p| >= 1 && p <= q && p[0] < N_BLOCKS && Value(t, q) != 0
    ensures Value(t, p) != 0
  {
    if Value(t, p) == 0 { ZeroBelow(t, p, q); }
  }

  // ----------------------------------------------------- every block is cleared once

  /** The walks from two entries of one table clear different blocks. */
  lemma EntriesDisjoint(t: Tree, p: Path, i: nat)
    requires WellFormed(t) && IsPath(t.n, p) && !IsLeaf(t.n, p) && i < t.n && Value(t, Child(p, i)) != 0
    requires forall j: nat :: j <= i ==> Value(t, Child(p, j)) != 0
    ensures IsPath(t.n, Child(p, i)) && FreedAt(t, Child(p, i)) !! FreedFrom(t, p, i + 1)
  {
    var c := Child(p, i);
    forall b | b in FreedAt(t, c) ensures b !in FreedFrom(t, p, i + 1) {
      FreedAtReached(t, c, b);
      var q :| Reaches(t, c, q, b);
      if b in FreedFrom(t, p, i + 1) {
        FreedFromReached(t, p, i + 1, b);
        var r :| Reaches(t, p, r, b) && |p| < |r| && r[|p|] >= i + 1;
        DifferentEntries(t, q, r, |p|);
      }
    }
  }

  lemma DifferentEntries(t: Tree, q: Path, r: Path, k: nat)
    requires WellFormed(t) && IsPath(t.n, q) && IsPath(t.n, r) && k < |q| && k < |r| && q[k] != r[k]
    ensures Value(t, q) == 0 || Value(t, q) != Value(t, r)
  {
    assert !SamePath(q, r);
  }

  /** A table and the blocks below it are different blocks. */
  lemma NodeNotBelow(t: Tree, p: Path)
    requires WellFormed(t) && IsPath(t.n, p) && !IsLeaf(t.n, p) && Value(t, p) != 0
    ensures Value(t, p) !in FreedFrom(t, p, 0)
  {
    if Value(t, p) in FreedFrom(t, p, 0) {
      FreedFromReached(t, p, 0, Value(t, p));
      var q :| Reaches(t, p, q, Value(t, p)) && |p| < |q| && q[|p|] >= 0;
      DifferentLengths(t, p, q);
    }
  }

  lemma DifferentLengths(t: Tree, p: Path, q: Path)
    requires WellFormed(t) && IsPath(t.n, p) && IsPath(t.n, q) && |p| != |q|
    ensures Value(t, p) == 0 || Value(t, p) != Value(t, q)
  {
    assert !SamePath(p, q);
  }

  lemma {:induction false} FreedSlotsReached(t: Tree, slot: nat, b: nat)
    requires |t.blocks| == N_BLOCKS && slot <= N_BLOCKS && b in FreedSlots(t, slot)
    ensures exists q :: IsPath(t.n, q) && q[0] >= slot && Reaches(t, [q[0]], q, b)
    decreases N_BLOCKS - slot
  {
    if t.blocks[slot] != 0 && b in FreedAt(t, [slot]) {
      FreedAtReached(t, [slot], b);
      var q :| Reaches(t, [slot], q, b);
      assert [q[0]] == [slot];
    } else {
      FreedSlotsReached(t, slot + 1, b);
    }
  }

  lemma SlotsDisjoint(t: Tree, slot: nat)
    requires WellFormed(t) && slot < N_BLOCKS && t.blocks[slot] != 0
    ensures FreedAt(t, [slot]) !! FreedSlots(t, slot + 1)
  {
    forall b | b in FreedAt(t, [slot]) ensures b !in FreedSlots(t, slot + 1) {
      FreedAtReached(t, [slot], b);
      var q :| Reaches(t, [slot], q, b);
      if b in FreedSlots(t, slot + 1) {
        FreedSlotsReached(t, slot + 1, b);
        var r :| IsPath(t.n, r) && r[0] >= slot + 1 && Reaches(t, [r[0]], r, b);
        DifferentEntries(t, q, r, 0);
      }
    }
  }

  lemma {:induction false} FreedSlotsIncludes(t: Tree, slot: nat, j: nat)
    requires |t.blocks| == N_BLOCKS && slot <= j < N_BLOCKS && t.blocks[j] != 0
    ensures FreedAt(t, [j]) <= FreedSlots(t, slot)
    decreases j - slot
  {
    if slot < j { FreedSlotsIncludes(t, slot + 1, j); }
  }

  // ------------------------------------------------------- when everything is freed

  lemma GapFreeIsOpen(t: Tree, q: Path)
    requires |t.blocks| == N_BLOCKS && GapFree(t) && IsPath(t.n, q) && Value(t, q) != 0
    ensures Open(t, [q[0]], q)
  {
    forall k, i: nat | 1 <= k < |q| && i < q[k] ensures Value(t, Child(q[..k], i)) != 0 {
      assert !Gap(t, q[..k], i, q[k]);
      assert Child(q[..k], q[k]) == q[..k + 1];
      PrefixNonzero(t, q[..k + 1], q);
    }
  }

  /** `free_blocks` clears only blocks of the file, and all of them when no table has a gap. */
  lemma FreedAreOwned(t: Tree, owned: set<nat>)
    requires WellFormed(t) && Owns(t, owned)
    ensures FreedSlots(t, 0) <= owned
    ensures GapFree(t) ==> FreedSlots(t, 0) == owned
  {
    hide WellFormed, GapFree, FreedSlots, Value;
    BlockCount(t);
    forall b | b in FreedSlots(t, 0) ensures b in owned {
      FreedSlotsReached(t, 0, b);
      assert Holds(t, b);
    }
    if GapFree(t) {
      forall b | b in owned ensures b in FreedSlots(t, 0) {
        var q :| IsPath(t.n, q) && Value(t, q) == b;
        GapFreeIsOpen(t, q);
        OpenIsFreed(t, [q[0]], q);
        PrefixNonzero(t, [q[0]], q);
        SlotValue(t, q[0]);
        FreedSlotsIncludes(t, 0, q[0]);
      }
    }
  }

  lemma SlotValue(t: Tree, i: nat)
    requires |t.blocks| == N_BLOCKS && i < N_BLOCKS
    ensures Value(t, [i]) == t.blocks[i]
  {
  }

  lemma BlockCount(t: Tree)
    requires WellFormed(t)
    ensures |t.blocks| == N_BLOCKS && t.n >= 1
  {
  }

  /** A block behind a gap is never cleared. */
  lemma GapLeaks(t: Tree, p: Path, i: nat, j: nat)
    requires WellFormed(t) && Gap(t, p, i, j)
    ensures Value(t, Child(p, j)) !in FreedSlots(t, 0)
  {
    var b := Value(t, Child(p, j));
    var c := Child(p, j);
    if b in FreedSlots(t, 0) {
      FreedSlotsReached(t, 0, b);
      var q :| IsPath(t.n, q) && q[0] >= 0 && Reaches(t, [q[0]], q, b);
      UniqueNode(t, q, c);
      BlockedByGap(t, p, i, j);
    }
  }

  lemma UniqueNode(t: Tree, q: Path, c: Path)
    requires WellFormed(t) && IsPath(t.n, q) && IsPath(t.n, c) && Value(t, q) == Value(t, c) != 0
    ensures q == c
  {
    assert SamePath(q, c);
  }

  lemma BlockedByGap(t: Tree, p: Path, i: nat, j: nat)
    requires |t.blocks| == N_BLOCKS && Gap(t, p, i, j)
    ensures !Open(t, [p[0]], Child(p, j))
  {
    var q := Child(p, j);
    assert q[..|p|] == p && q[|p|] == j;
    assert Value(t, Child(q[..|p|], i)) == 0;
  }

  /** `free_blocks` clears every block of the file if and only if no pointer table has a gap. */
  lemma FreesAllIffGapFree(t: Tree, owned: set<nat>)
    requires WellFormed(t) && Owns(t, owned)
    ensures FreedSlots(t, 0) == owned <==> GapFree(t)
  {
    hide Injective, HasTables, FreedSlots;
    FreedAreOwned(t, owned);
    if !GapFree(t) {
      var p, i: nat, j: nat :| Gap(t, p, i, j);
      GapLeaks(t, p, i, j);
      assert IsPath(t.n, Child(p, j));
      assert Holds(t, Value(t, Child(p, j)));
    }
  }

  /** A file with blocks 0 and 13, as a write behind a seek leaves it: disk blocks 3 and 7, and the table in block 5. */
  function Holed(n: nat): Tree
    requires n >= 2
  {
    Tree(n, Zeros(N_BLOCKS)[0 := 3][N_DIRECT := 5], map[5 := Zeros(n)[1 := 7]])
  }

  lemma HoledValue(n: nat, p: Path)
    requires n >= 2 && IsPath(n, p)
    ensures Value(Holed(n), p) == if p == [0] then 3 else if p == [12] then 5 else if p == [12, 1] then 7 else 0
  {
    var t := Holed(n);
    if |p| == 2 {
      assert Up(p) == [p[0]] && Value(t, Up(p)) == t.blocks[p[0]];
      if p[0] == 12 { assert p == [12, p[1]]; }
    } else if |p| >= 3 {
      ZeroBelow(t, p[..1], p);
    }
  }

  lemma HoledWellFormed(n: nat)
    requires n >= 2
    ensures WellFormed(Holed(n)) && Owns(Holed(n), {3, 5, 7})
  {
    var t := Holed(n);
    forall p | IsPath(n, p)
      ensures Value(t, p) == if p == [0] then 3 else if p == [12] then 5 else if p == [12, 1] then 7 else 0
    {
      HoledValue(n, p);
    }
    hide Value;
    assert IsPath(n, [0]) && IsPath(n, [12]) && IsPath(n, [12, 1]);
    assert !IsLeaf(n, [12]) && IsLeaf(n, [0]) && IsLeaf(n, [12, 1]);
    assert Holds(t, 3) && Holds(t, 5) && Holds(t, 7);
  }

  /** With a hole at block 12, `free_blocks` leaves the file's block 7 marked as used, for every table size. */
  lemma HoleLeaks(n: nat)
    requires n >= 2
    ensures var t := Holed(n);
      && WellFormed(t) && Owns(t, {3, 5, 7})
      && 13 < Limit(n) && Lookup(t, 0) == 3 && Lookup(t, 12) == 0 && Lookup(t, 13) == 7
      && FreedSlots(t, 0) == {3, 5}
  {
    hide WellFormed, Lookup, Limit, FreedFrom, FreedSlots, GapFree, Value;
    var t := Holed(n);
    HoledWellFormed(n);
    HoledLookup(n);
    HoledValue(n, [12]);
    HoledValue(n, Child([12], 0));
    HoledValue(n, Child([12], 1));
    GapLeaks(t, [12], 0, 1);
    FreedAreOwned(t, {3, 5, 7});
    FreedSlotsIncludes(t, 0, 0);
    FreedSlotsIncludes(t, 0, 12);
    HoledValue(n, [0]);
  }

  lemma HoledLookup(n: nat)
    requires n >= 2
    ensures 13 < Limit(n) && Lookup(Holed(n), 0) == 3 && Lookup(Holed(n), 12) == 0 && Lookup(Holed(n), 13) == 7
  {
    assert PathOf(n, 0) == [0] && PathOf(n, 12) == [12, 0] && PathOf(n, 13) == [12, 1];
    HoledValue(n, [0]);
    HoledValue(n, [12, 0]);
    HoledValue(n, [12, 1]);
  }
}
