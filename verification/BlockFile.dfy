/**
 Block allocation for one file (kernel/fs/ext2/block.c): the inode's pointer array, the
 pointer blocks in the page cache, and the bitmap and free counter of a file system with
 a single block group.
 */
module BlockFile {
  import opened Platform
  import Arith
  import opened BlockTree
  import opened BlockFreeing
  import opened Bitmap

  const U16: nat := 0x1_0000

  /** `_bid` in `alloc_block`: a pointer into the inode or into a pointer block. */
  datatype Slot = InInode(index: nat) | InTable(bid: nat, index: nat)

  function Dec16(c: nat): nat { if c == 0 then U16 - 1 else c - 1 }

  function Inc16(c: nat): nat { (c + 1) % U16 }

  /** What the methods of `File` change: the pointer tree, its blocks, the bitmap and the counters. */
  datatype FileState = FileState(tree: Tree, owned: set<nat>, used: set<nat>, blockCnt: nat, freeCnt: nat)

  /** Block 0 holds the boot sector and superblock and is never free. */
  ghost predicate Consistent(s: FileState) {
    && WellFormed(s.tree) && Owns(s.tree, s.owned)
    && 0 in s.used && s.owned <= s.used && s.blockCnt == |s.owned| && s.freeCnt < U16
  }

  ghost predicate CanGrow(s: FileState, p: Path, bid: nat) {
    Fillable(s.tree, p) && Fresh(s.tree, bid) && bid !in s.used
  }

  /** Block `bid` is taken from the bitmap and stored at the empty slot `p`. */
  ghost function Grow(s: FileState, p: Path, bid: nat): FileState
    requires Fillable(s.tree, p)
  {
    FileState(Fill(s.tree, p, bid), s.owned + {bid}, s.used + {bid}, s.blockCnt + 1, Dec16(s.freeCnt))
  }

  lemma GrowKeeps(s: FileState, p: Path, bid: nat)
    requires Consistent(s) && IsPath(s.tree.n, p) && Value(s.tree, p) == 0 && bid !in s.used
    requires |p| > 1 ==> Value(s.tree, Up(p)) != 0
    ensures CanGrow(s, p, bid) && Consistent(Grow(s, p, bid))
  {
    SlotFillable(s.tree, p);
    UnusedIsFresh(s.tree, s.owned, bid);
    FillOwns(s.tree, p, bid, s.owned);
    FillKeeps(s.tree, p, bid);
  }

  function Add16(c: nat, k: nat): nat { (c + k) % U16 }

  function Sub16(c: nat, k: nat): nat { (c - k) % U16 }

  /** From `t0` to `t`, only empty slots on the way to `path` were filled. */
  ghost predicate FilledOnPath(t0: Tree, t: Tree, path: Path)
    requires |t0.blocks| == N_BLOCKS && |t.blocks| == N_BLOCKS
  {
    t.n == t0.n && forall q :: IsPath(t.n, q) && Value(t, q) != Value(t0, q) ==> Value(t0, q) == 0 && q <= path
  }

  /** What `alloc_block` has added so far: nodes on the way to `path`, all of them new blocks. */
  ghost predicate Extended(s0: FileState, s: FileState, path: Path) {
    && |s0.tree.blocks| == N_BLOCKS && |s.tree.blocks| == N_BLOCKS && |path| >= 1 && path[0] < N_BLOCKS
    && FilledOnPath(s0.tree, s.tree, path)
    && Accounted(s0, s, s.owned - s0.owned)
    && s.blockCnt - s0.blockCnt == Missing(s0.tree, path) - Missing(s.tree, path)
  }

  /** The blocks in `added` were free, now belong to the file, and are counted. */
  ghost predicate Accounted(s0: FileState, s: FileState, added: set<nat>) {
    && s.owned == s0.owned + added && added !! s0.owned && added !! s0.used && s.used == s0.used + added
    && s.blockCnt == s0.blockCnt + |added| && s.freeCnt == Sub16(s0.freeCnt, |added|)
  }

  lemma AccountStep(s0: FileState, s: FileState, p: Path, bid: nat)
    requires Accounted(s0, s, s.owned - s0.owned) && CanGrow(s, p, bid) && s.owned <= s.used
    ensures var s' := Grow(s, p, bid); Accounted(s0, s', s'.owned - s0.owned)
  {
    hide Fillable, Fresh, Fill, Sub16, Dec16;
    var added := s.owned - s0.owned;
    var s' := Grow(s, p, bid);
    assert s'.owned - s0.owned == added + {bid};
    assert |added + {bid}| == |added| + 1;
    Dec16Is(s0.freeCnt, |added|);
  }

  lemma Dec16Is(c: nat, k: nat)
    ensures Dec16(Sub16(c, k)) == Sub16(c, k + 1)
  {
  }

  lemma FilledStep(t0: Tree, t: Tree, path: Path, p: Path, bid: nat)
    requires WellFormed(t) && |t0.blocks| == N_BLOCKS && FilledOnPath(t0, t, path)
    requires Fillable(t, p) && Fresh(t, bid) && p <= path
    ensures FilledOnPath(t0, Fill(t, p, bid), path)
  {
    var u := Fill(t, p, bid);
    forall q | IsPath(t.n, q) && Value(u, q) != Value(t0, q) ensures Value(t0, q) == 0 && q <= path {
      FillValue(t, p, bid, q);
    }
  }

  lemma ExtendedSelf(s: FileState, path: Path)
    requires Consistent(s) && |path| >= 1 && path[0] < N_BLOCKS
    ensures Extended(s, s, path)
  {
    assert s.owned - s.owned == {};
  }

  lemma ExtendStep(s0: FileState, s: FileState, path: Path, p: Path, bid: nat)
    requires Consistent(s0) && Consistent(s) && IsPath(s.tree.n, path) && p <= path
    requires Extended(s0, s, path) && CanGrow(s, p, bid)
    ensures Extended(s0, Grow(s, p, bid), path)
  {
    AccountStep(s0, s, p, bid);
    FilledStep(s0.tree, s.tree, path, p, bid);
    FillMissing(s.tree, p, bid, path);
  }

  // ------------------------------------------------------- when it succeeds

  /** The clear bits that the bitmap search can find. */
  ghost function FreeBits(used: set<nat>, scan: nat): set<nat> {
    set i: nat | i < 8 * scan && i !in used
  }

  /** Lines 93-94: `find_group` stops the kernel for a file that has blocks but no block 0. */
  ghost predicate Halts(s: FileState)
    requires |s.tree.blocks| == N_BLOCKS
  {
    s.blockCnt != 0 && s.tree.blocks[0] == 0
  }

  /** `alloc_block` of `bno` goes through: block 0 is there or comes first, and each missing node finds a free bit. */
  ghost predicate CanInsert(s: FileState, scan: nat, bno: nat) {
    && |s.tree.blocks| == N_BLOCKS && s.tree.n >= 1 && bno < Limit(s.tree.n)
    && (s.tree.blocks[0] != 0 || (s.blockCnt == 0 && bno < N_DIRECT))
    && Missing(s.tree, PathOf(s.tree.n, bno)) <= |FreeBits(s.used, scan)|
  }

  /** Every block taken since `s0` was a bit that the search could find. */
  ghost predicate Spent(s0: FileState, s: FileState, scan: nat) {
    |FreeBits(s.used, scan)| + s.blockCnt == |FreeBits(s0.used, scan)| + s0.blockCnt
  }

  lemma SpentSelf(s: FileState, scan: nat)
    ensures Spent(s, s, scan)
  {
  }

  lemma SpentChain(s0: FileState, s1: FileState, s2: FileState, scan: nat)
    requires Spent(s0, s1, scan) && Spent(s1, s2, scan)
    ensures Spent(s0, s2, scan)
  {
  }

  lemma SpendOne(used: set<nat>, scan: nat, bid: nat)
    requires bid in FreeBits(used, scan)
    ensures |FreeBits(used + {bid}, scan)| + 1 == |FreeBits(used, scan)|
  {
    assert FreeBits(used, scan) == FreeBits(used + {bid}, scan) + {bid};
  }

  lemma GrowSpends(s: FileState, p: Path, bid: nat, scan: nat)
    requires Fillable(s.tree, p) && bid !in s.used && bid < 8 * scan
    ensures Spent(s, Grow(s, p, bid), scan)
  {
    hide Fill, Fillable;
    assert bid in FreeBits(s.used, scan);
    SpendOne(s.used, scan, bid);
  }

  /** A file with a node has a block count above zero. */
  lemma NodeCounts(s: FileState, p: Path)
    requires Consistent(s) && IsPath(s.tree.n, p) && Value(s.tree, p) != 0
    ensures s.blockCnt != 0
  {
    assert Holds(s.tree, Value(s.tree, p));
    assert Value(s.tree, p) in s.owned;
  }

  /** Block 0 is filled only by an allocation whose path is block 0. */
  lemma FirstBlockKept(s0: FileState, s: FileState, path: Path)
    requires Consistent(s0) && Consistent(s) && Extended(s0, s, path)
    ensures s0.tree.blocks[0] != 0 ==> s.tree.blocks[0] != 0
    ensures path[0] != 0 ==> s.tree.blocks[0] == s0.tree.blocks[0]
  {
    assert IsPath(s.tree.n, [0]) && Value(s.tree, [0]) == s.tree.blocks[0] && Value(s0.tree, [0]) == s0.tree.blocks[0];
  }

  /** Before the last node is there, a node is missing; afterwards none is. */
  lemma SpentMeans(s0: FileState, s: FileState, path: Path, scan: nat)
    requires Consistent(s) && IsPath(s.tree.n, path) && Extended(s0, s, path) && Spent(s0, s, scan)
    ensures Value(s.tree, path) == 0 && FreeBits(s.used, scan) == {} ==>
              |FreeBits(s0.used, scan)| < Missing(s0.tree, path)
    ensures Value(s.tree, path) != 0 ==> Missing(s0.tree, path) <= |FreeBits(s0.used, scan)|
  {
    if Value(s.tree, path) != 0 { NoneMissing(s.tree, path); }
  }

  /**
   A write behind the first 12 blocks of an empty file, with pages of 4096 bytes: block 12 needs
   two nodes, and the kernel stops at the second, however many blocks are free.
   */
  lemma SkippingBlockZeroHalts(s: FileState, scan: nat)
    requires Consistent(s) && s.tree.n == 1024 && s.blockCnt == 0
    ensures 12 < Limit(1024) && PathOf(1024, 12) == [12, 0] && Missing(s.tree, [12, 0]) == 2
    ensures !CanInsert(s, scan, 12)
  {
    forall p | IsPath(1024, p) ensures Value(s.tree, p) == 0 {
      if Value(s.tree, p) != 0 { NodeCounts(s, p); }
    }
    assert Value(s.tree, [12]) == 0 && Value(s.tree, [12, 0]) == 0;
    assert Up([12, 0]) == [12];
    assert IsPath(1024, [0]) && Value(s.tree, [0]) == s.tree.blocks[0];
  }

  lemma DirectCanInsert(s: FileState, scan: nat, bno: nat)
    requires Consistent(s) && bno < N_DIRECT && Value(s.tree, [bno]) == 0
    ensures CanInsert(s, scan, bno) <==> !Halts(s) && FreeBits(s.used, scan) != {}
  {
    DirectPath(s.tree, bno);
    assert Missing(s.tree, [bno]) == 1;
  }

  lemma IndirectCanInsert(s: FileState, scan: nat, bno: nat)
    requires Consistent(s) && N_DIRECT <= bno < Limit(s.tree.n)
    ensures CanInsert(s, scan, bno) <==>
      s.tree.blocks[0] != 0 && Missing(s.tree, PathOf(s.tree.n, bno)) <= |FreeBits(s.used, scan)|
  {
  }

  /** From `s0` to `s`, the map gained exactly the binding of `bno` to the new block `bid`. */
  ghost predicate Inserted(s0: FileState, s: FileState, bno: nat, bid: nat) {
    && WellFormed(s0.tree) && WellFormed(s.tree) && s.tree.n == s0.tree.n && bno < Limit(s.tree.n)
    && bid != 0 && bid !in s0.used && Lookup(s.tree, bno) == bid
    && (forall b: nat :: b < Limit(s.tree.n) && b != bno ==> Lookup(s.tree, b) == Lookup(s0.tree, b))
    && Accounted(s0, s, s.owned - s0.owned) && s.blockCnt - s0.blockCnt == Missing(s0.tree, PathOf(s.tree.n, bno))
  }

  lemma InsertedBalances(s0: FileState, s: FileState, bno: nat, bid: nat)
    requires Inserted(s0, s, bno, bid)
    ensures Books(s.freeCnt, s.used) == Books(s0.freeCnt, s0.used)
  {
    AccountedBalances(s0, s, s.owned - s0.owned);
  }

  lemma FreshBlock(s0: FileState, s: FileState, path: Path, bid: nat)
    requires Consistent(s0) && Consistent(s) && Extended(s0, s, path) && IsPath(s.tree.n, path)
    requires Value(s0.tree, path) == 0 && Value(s.tree, path) == bid != 0
    ensures bid !in s0.used
  {
    assert Holds(s.tree, bid);
    forall q | IsPath(s.tree.n, q) && Value(s.tree, q) == bid ensures q == path {
      assert SamePath(q, path);
    }
    assert !Holds(s0.tree, bid);
  }

  lemma ExtendedInserted(s0: FileState, s: FileState, bno: nat, bid: nat)
    requires Consistent(s0) && Consistent(s) && bno < Limit(s0.tree.n) && Lookup(s0.tree, bno) == 0
    requires Extended(s0, s, PathOf(s0.tree.n, bno)) && Value(s.tree, PathOf(s0.tree.n, bno)) == bid != 0
    ensures Inserted(s0, s, bno, bid)
  {
    var n := s0.tree.n;
    var path := PathOf(n, bno);
    PathOfLeaf(n, bno);
    FreshBlock(s0, s, path, bid);
    NoneMissing(s.tree, path);
    forall b: nat | b < Limit(n) && b != bno ensures Lookup(s.tree, b) == Lookup(s0.tree, b) {
      PathOfLeaf(n, b);
      if PathOf(n, b) <= path { LeafPrefix(n, PathOf(n, b), path); }
    }
  }

  lemma DirectPath(t: Tree, bno: nat)
    requires WellFormed(t) && bno < N_DIRECT
    ensures IsPath(t.n, [bno]) && PathOf(t.n, bno) == [bno] && bno < Limit(t.n) && Value(t, [bno]) == Lookup(t, bno)
    ensures SlotFor(t, InInode(bno), [bno])
  {
  }

  /** `slot` is where the pointer at path `p` is stored. */
  ghost predicate SlotFor(t: Tree, slot: Slot, p: Path)
    requires |t.blocks| == N_BLOCKS && |p| >= 1 && p[0] < N_BLOCKS
  {
    if |p| == 1 then slot == InInode(p[0])
    else Value(t, Up(p)) != 0 && slot == InTable(Value(t, Up(p)), p[|p| - 1])
  }

  /** `layer` and `id`, as `find_block_layer` returns them, spell out the path `p`. */
  ghost predicate Locates(layer: nat, id: seq<nat>, p: Path) {
    && layer < 3 && |id| == 3 && |p| == layer + 2 && p[0] == N_DIRECT + layer
    && forall i :: 0 <= i <= layer ==> p[layer + 1 - i] == id[i]
  }

  /** All pointers zero: nothing is mapped and nothing is owned. */
  lemma NewFile(t: Tree, used: set<nat>, freeCnt: nat)
    requires t.n >= 1 && |t.blocks| == N_BLOCKS && (forall i :: 0 <= i < N_BLOCKS ==> t.blocks[i] == 0)
    requires t.tables == map[] && 0 in used && freeCnt < U16
    ensures Consistent(FileState(t, {}, used, 0, freeCnt))
    ensures forall p :: IsPath(t.n, p) ==> Value(t, p) == 0
  {
    forall p | IsPath(t.n, p) ensures Value(t, p) == 0 {
      ZeroBelow(t, p[..1], p);
    }
    hide Value;
    assert Injective(t) && HasTables(t) && WellFormed(t);
    assert Owns(t, {});
  }

  // ------------------------------------------------------------ block groups

  /** The block id for bit `bit` of group `group` (line 129). */
  function AllocatedBid(group: nat, bit: nat, perGroup: nat): nat { bit + group * perGroup }

  /** The group and the bit that `clear_block_bitmap` clears for a block id (lines 135 and 142). */
  function ClearedBit(bid: nat, perGroup: nat): (nat, nat)
    requires perGroup >= 1
  {
    (bid / perGroup, bid)
  }

  /** Freeing a block clears the bit that allocating it has set exactly in block group 0. */
  lemma ClearsItsBitInGroupZero(group: nat, bit: nat, perGroup: nat)
    requires bit < perGroup
    ensures ClearedBit(AllocatedBid(group, bit, perGroup), perGroup) == (group, bit) <==> group == 0
  {
    assert group * perGroup == perGroup * group;
    if group == 0 {
      Arith.QuotientUnique(bit, perGroup, 0, bit);
    } else {
      Arith.MulMonotone(perGroup, 1, group);
    }
  }

  class File {
    const nPtr: nat              // blockSize / 4
    const blocks: array<nat>     // info->blocks
    var blockCnt: nat
    var tables: map<nat, seq<nat>>
    const bitmap: array<Byte>
    const scan: nat              // bytes of the bitmap that the search looks at
    var freeCnt: nat             // desc->freeBlockCnt, 16 bits
    ghost var owned: set<nat>

    /** A new file on a disk whose bitmap is `disk`: no pointer is set. */
    constructor (nPtr: nat, disk: seq<Byte>, scan: nat, freeCnt: nat)
      requires nPtr >= 1 && scan <= |disk| && freeCnt < U16 && 0 in UsedSet(disk)
      ensures Valid() && fresh(blocks) && fresh(bitmap) && UsedBlocks() == UsedSet(disk)
      ensures this.nPtr == nPtr && this.scan == scan && this.freeCnt == freeCnt && blockCnt == 0
      ensures forall p :: IsPath(nPtr, p) ==> Value(Tree(), p) == 0
    {
      this.nPtr, this.scan, this.freeCnt, blockCnt, tables, owned := nPtr, scan, freeCnt, 0, map[], {};
      blocks := new nat[N_BLOCKS](_ => 0);
      bitmap := new Byte[|disk|](i requires 0 <= i < |disk| => disk[i]);
      new;
      assert bitmap[..] == disk;
      NewFile(Tree(), UsedSet(disk), freeCnt);
    }

    ghost predicate Shape()
      reads this, blocks
    {
      blocks.Length == N_BLOCKS && scan <= bitmap.Length && (bitmap as object) != (blocks as object) && freeCnt < U16
    }

    function Tree(): Tree
      reads this, blocks
    {
      BlockTree.Tree(nPtr, blocks[..], tables)
    }

    ghost function UsedBlocks(): set<nat>
      reads this, bitmap
    {
      UsedSet(bitmap[..])
    }

    ghost function State(): FileState
      reads this, blocks, bitmap
    {
      FileState(Tree(), owned, UsedBlocks(), blockCnt, freeCnt)
    }

    ghost predicate Valid()
      reads this, blocks, bitmap
    {
      Shape() && Consistent(State())
    }

    /** `find_block_layer`; `ok` is the assertion at line 165. */
    method FindBlockLayer(bno: nat, id: array<nat>) returns (ok: bool, layer: nat)
      requires nPtr >= 1 && id.Length == 3 && bno >= N_DIRECT
      modifies id
      ensures ok <==> bno < Limit(nPtr)
      ensures ok ==> layer < 3 && Locates(layer, id[..], PathOf(nPtr, bno))
    {
      layer := 0;
      var b := bno - N_DIRECT;
      if b >= nPtr {
        b := b - nPtr;
        layer := 1;
      }
      var sqr := nPtr * nPtr;
      var cube := sqr * nPtr;
      LayerFacts(nPtr, bno, sqr, cube);
      if b >= sqr {
        b := b - sqr;
        layer := 2;
      }
      ok := b < cube;
      assert ok ==> b == Reduced(nPtr, bno);
      id[0], id[1], id[2] := Digit(nPtr, b, 0), Digit(nPtr, b, 1), Digit(nPtr, b, 2);
      if ok { PathShape(nPtr, bno); }
    }

    method Load(slot: Slot) returns (v: nat)
      requires blocks.Length == N_BLOCKS
      requires slot.InInode? ==> slot.index < N_BLOCKS
      ensures slot.InInode? ==> v == blocks[slot.index]
      ensures slot.InTable? ==> v == Entry(Tree(), slot.bid, slot.index)
    {
      match slot
      case InInode(i) => v := blocks[i];
      case InTable(b, i) => v := if b in tables && i < |tables[b]| then tables[b][i] else 0;
    }

    /** `set_block_bitmap` in block group 0; `None` is the error of `find_group` at line 94 or the one at line 120. */
    method SetBlockBitmap() returns (r: Option<nat>)
      requires Shape()
      modifies bitmap, this`freeCnt
      ensures r.None? <==> old(Halts(State())) || old(FreeBits(UsedBlocks(), scan)) == {}
      ensures r.None? ==> UsedBlocks() == old(UsedBlocks()) && freeCnt == old(freeCnt)
      ensures r.Some? ==> r.value !in old(UsedBlocks()) && UsedBlocks() == old(UsedBlocks()) + {r.value}
      ensures r.Some? ==> r.value < 8 * scan && forall i: nat :: i < r.value ==> i in old(UsedBlocks())
      ensures r.Some? ==> freeCnt == Dec16(old(freeCnt))
    {
      if blockCnt != 0 && blocks[0] == 0 {
        return None;
      }
      var bit := SetNextZeroBit(bitmap, scan);
      if bit < 0 {
        return None;
      }
      assert bit in FreeBits(old(UsedBlocks()), scan);
      freeCnt := Dec16(freeCnt);
      r := Some(bit);
    }

    /** `get_bid`; `None` is the assertion of `find_block_layer`. */
    method GetBid(bno: nat) returns (r: Option<nat>)
      requires Valid()
      ensures r == if bno < Limit(nPtr) then Some(Value(Tree(), PathOf(nPtr, bno))) else None
    {
      if bno < N_DIRECT {
        return Some(blocks[bno]);
      }
      var id := new nat[3];
      var ok, layer := FindBlockLayer(bno, id);
      if !ok {
        return None;
      }
      var bid := FollowPath(layer, id[..], PathOf(nPtr, bno));
      r := Some(bid);
    }

    /** The loop at lines 192-196. */
    method FollowPath(layer: nat, id: seq<nat>, ghost p: Path) returns (bid: nat)
      requires blocks.Length == N_BLOCKS && Locates(layer, id, p)
      ensures bid == Value(Tree(), p)
    {
      bid := blocks[N_DIRECT + layer];
      ghost var q := p[..1];
      var i: int := layer;
      while i >= 0 && bid != 0
        invariant -1 <= i <= layer && q <= p && |q| == layer + 1 - i
        invariant bid == Value(Tree(), q)
      {
        assert p[layer + 1 - i] == id[i];
        bid := Entry(Tree(), bid, id[i]);
        assert Up(p[..|q| + 1]) == q;
        q := p[..|q| + 1];
        i := i - 1;
      }
      if i >= 0 {
        ZeroBelow(Tree(), q, p);
      } else {
        assert q == p;
      }
    }

    /** Lines 211-213 and 219-220: an empty slot gets a new block. */
    method FillSlot(slot: Slot, ghost p: Path) returns (r: Option<nat>)
      requires Valid() && IsPath(nPtr, p) && SlotFor(Tree(), slot, p) && Value(Tree(), p) == 0
      modifies this, blocks, bitmap
      ensures Valid()
      ensures r.None? <==> old(Halts(State())) || old(FreeBits(UsedBlocks(), scan)) == {}
      ensures r.None? ==> State() == old(State())
      ensures r.Some? ==> Spent(old(State()), State(), scan)
      ensures r.Some? ==> old(CanGrow(State(), p, r.value)) && State() == old(Grow(State(), p, r.value))
    {
      hide Consistent, Fill, Value, UsedSet, Spent, Halts, FreeBits, Fillable, Fresh;
      ghost var s := State();
      r := SetBlockBitmap();
      if r.None? { return; }
      GrowKeeps(s, p, r.value);
      GrowSpends(s, p, r.value, scan);
      StoreNew(slot, r.value, p);
      blockCnt := blockCnt + 1;
      owned := owned + {r.value};
      assert State() == Grow(s, p, r.value);
    }

    /** The new block is stored through the slot; `new_empty_block` zeroes it first, the direct case does not. */
    method StoreNew(slot: Slot, bid: nat, ghost p: Path)
      requires Fillable(Tree(), p) && SlotFor(Tree(), slot, p) && Fresh(Tree(), bid)
      modifies this`tables, blocks
      ensures Tree() == old(Fill(Tree(), p, bid))
    {
      if |p| > 1 { UpIsPath(nPtr, p); }
      if !(slot.InInode? && slot.index < N_DIRECT) {
        tables := tables[bid := Zeros(nPtr)];
      }
      match slot
      case InInode(i) => blocks[i] := bid;
      case InTable(b, i) =>
        var row: seq<nat> := tables[b][i := bid];
        tables := tables[b := row];
    }

    /** One round of the loop at lines 217-226: the node at prefix `q` of `p` is there afterwards. */
    method EnsureNode(slot: Slot, ghost q: Path, ghost p: Path, ghost s0: FileState) returns (v: Option<nat>)
      requires Valid() && IsPath(nPtr, p) && Consistent(s0) && Extended(s0, State(), p) && Value(Tree(), p) == 0
      requires IsPath(nPtr, q) && q <= p && SlotFor(Tree(), slot, q)
      modifies this, blocks, bitmap
      ensures Valid() && Extended(s0, State(), p)
      ensures v.None? ==> State() == old(State())
      ensures v.None? <==> old(Value(Tree(), q) == 0 && (Halts(State()) || FreeBits(UsedBlocks(), scan) == {}))
      ensures Spent(old(State()), State(), scan)
      ensures v.Some? ==> Value(Tree(), q) == v.value != 0 && (q != p ==> Value(Tree(), p) == 0)
    {
      assert WellFormed(Tree());
      hide Consistent, Extended, Value, Fill, UsedSet, WellFormed;
      var old_ := LoadFor(slot, q);
      if old_ != 0 {
        return Some(old_);
      }
      ghost var s := State();
      v := FillSlot(slot, q);
      if v.Some? {
        ExtendStep(s0, s, p, q, v.value);
        FillValue(s.tree, q, v.value, q);
        FillValue(s.tree, q, v.value, p);
      }
    }

    /** The loop of `alloc_block` for a block number from 12 on, whose path is `p`. */
    method AllocIndirect(layer: nat, id: seq<nat>, ghost p: Path) returns (r: Option<nat>)
      requires Valid() && IsPath(nPtr, p) && Value(Tree(), p) == 0 && Locates(layer, id, p)
      modifies this, blocks, bitmap
      ensures Valid() && Extended(old(State()), State(), p)
      ensures r.Some? <==> old(blocks[0]) != 0 && Missing(old(Tree()), p) <= |old(FreeBits(UsedBlocks(), scan))|
      ensures r.None? ==> FullPrefix() || old(blocks[0]) == 0
      ensures r.Some? ==> Value(Tree(), p) == r.value != 0
    {
      hide Consistent, Extended, Missing, Spent, FreeBits;
      ghost var s0 := State();
      var slot := InInode(N_DIRECT + layer);
      ghost var q := p[..1];
      FirstPrefix(nPtr, p);
      ExtendedSelf(s0, p);
      SpentSelf(s0, scan);
      var i: int := layer;
      while i >= -1
        invariant -1 <= i <= layer && Valid() && Extended(s0, State(), p) && Value(Tree(), p) == 0
        invariant Spent(s0, State(), scan) && blocks[0] == s0.tree.blocks[0]
        invariant IsPath(nPtr, q) && q <= p && |q| == layer + 1 - i && SlotFor(Tree(), slot, q)
        decreases i
      {
        ghost var s := State();
        r := EnsureNode(slot, q, p, s0);
        FirstBlockKept(s0, State(), p);
        SpentChain(s0, s, State(), scan);
        SpentMeans(s0, State(), p, scan);
        if r.None? {
          NoFreeBits();
          return;
        }
        if i == -1 {
          assert q == p && Value(s.tree, Up(p)) != 0;
          UpIsPath(nPtr, p);
          NodeCounts(s, Up(p));
          return;
        }
        assert p[layer + 1 - i] == id[i];
        NextSlot(Tree(), q, p, r.value, id[i]);
        slot := InTable(r.value, id[i]);
        q := p[..|q| + 1];
        i := i - 1;
      }
    }

    /** `alloc_block` for an unmapped block number is an insertion into the block map. */
    method AllocBlock(bno: nat) returns (r: Option<nat>)
      requires Valid() && (bno < Limit(nPtr) ==> Lookup(Tree(), bno) == 0)
      modifies this, blocks, bitmap
      ensures Valid()
      ensures bno >= Limit(nPtr) ==> State() == old(State())
      ensures r.Some? <==> old(CanInsert(State(), scan, bno))
      ensures r.None? && bno < Limit(nPtr) ==> FullPrefix() || old(blocks[0] == 0 && (blockCnt != 0 || bno >= N_DIRECT))
      ensures r.Some? ==> Inserted(old(State()), State(), bno, r.value)
      ensures r.Some? ==> Extended(old(State()), State(), PathOf(nPtr, bno))
      ensures r.Some? ==> Books(freeCnt, UsedBlocks()) == old(Books(freeCnt, UsedBlocks()))
    {
      hide Extended, Missing, Limit, Inserted, Value, Layer, Digit, Reduced, First;
      ghost var s0 := State();
      if bno < N_DIRECT {
        DirectPath(Tree(), bno);
        DirectCanInsert(s0, scan, bno);
        ExtendedSelf(s0, [bno]);
        r := EnsureNode(InInode(bno), [bno], [bno], s0);
        NoFreeBits();
      } else {
        var id := new nat[3];
        var ok, layer := FindBlockLayer(bno, id);
        if !ok {
          return None;
        }
        IndirectCanInsert(s0, scan, bno);
        PathOfLeaf(nPtr, bno);
        r := AllocIndirect(layer, id[..], PathOf(nPtr, bno));
      }
      if r.Some? {
        ExtendedInserted(s0, State(), bno, r.value);
        InsertedBalances(s0, State(), bno, r.value);
      }
    }

    /** `clear_block_bitmap` in block group 0. */
    method ClearBlockBitmap(bid: nat)
      requires bid / 8 < bitmap.Length && freeCnt < U16
      modifies bitmap, this`freeCnt
      ensures Cleared(old(UsedBlocks()), old(freeCnt), UsedBlocks(), freeCnt, {bid})
    {
      freeCnt := Inc16(freeCnt);
      ClearInMap(bitmap[..], bid);
      bitmap[bid / 8] := ClearBit(bitmap[bid / 8], bid % 8);
    }

    /** `free_ptr` on the node at `p`: each block below it, and then the node, is cleared once. */
    method FreePtr(bid: nat, layer: nat, ghost p: Path)
      requires Shape() && Fits(Tree(), bitmap.Length) && IsPath(nPtr, p)
      requires layer == Depth(p[0]) + 1 - |p| && bid == Value(Tree(), p) != 0
      modifies bitmap, this`freeCnt
      ensures freeCnt < U16
      ensures Cleared(old(UsedBlocks()), old(freeCnt), UsedBlocks(), freeCnt, FreedAt(Tree(), p))
      decreases layer, 1
    {
      hide Cleared, WellFormed, FreedFrom;
      ghost var t := Tree();
      if layer == 0 {
        ClearBlockBitmap(bid);
        return;
      }
      NodeNotBelow(t, p);
      ghost var below := FreedFrom(t, p, 0);
      FreeEntries(bid, layer, p);
      ghost var used, cnt := UsedBlocks(), freeCnt;
      ClearBlockBitmap(bid);
      ClearedMore(old(UsedBlocks()), old(freeCnt), used, cnt, below, UsedBlocks(), freeCnt, {bid});
      assert FreedAt(t, p) == below + {bid};
    }

    /** The loop at lines 245-247 over the table of the node at `p`. */
    method FreeEntries(bid: nat, layer: nat, ghost p: Path)
      requires Shape() && Fits(Tree(), bitmap.Length) && IsPath(nPtr, p) && bid == Value(Tree(), p) != 0
      requires layer == Depth(p[0]) + 1 - |p| && layer > 0
      modifies bitmap, this`freeCnt
      ensures freeCnt < U16
      ensures Cleared(old(UsedBlocks()), old(freeCnt), UsedBlocks(), freeCnt, FreedFrom(Tree(), p, 0))
      decreases layer, 0
    {
      hide Cleared, WellFormed, FreedAt, FreedFrom, Value, Partition;
      ghost var t := Tree();
      ghost var done: set<nat> := {};
      TableEntries(t, p);
      var ptr := tables[bid];
      ClearedNone(UsedBlocks(), freeCnt);
      PartitionStart(FreedFrom(t, p, 0));
      var i := 0;
      while i < nPtr && ptr[i] != 0
        invariant 0 <= i <= nPtr && freeCnt < U16
        invariant forall j: nat :: j < i ==> Value(t, Child(p, j)) != 0
        invariant Partition(done, FreedFrom(t, p, i), FreedFrom(t, p, 0))
        invariant Cleared(old(UsedBlocks()), old(freeCnt), UsedBlocks(), freeCnt, done)
      {
        ghost var c, used, cnt := Child(p, i), UsedBlocks(), freeCnt;
        EntriesDisjoint(t, p, i);
        NextEntry(t, p, i);
        FreePtr(ptr[i], layer - 1, c);
        PartitionStep(done, FreedAt(t, c), FreedFrom(t, p, i + 1), FreedFrom(t, p, 0));
        ClearedMore(old(UsedBlocks()), old(freeCnt), used, cnt, done, UsedBlocks(), freeCnt, FreedAt(t, c));
        done := done + FreedAt(t, c);
        i := i + 1;
      }
      NoMoreEntries(t, p, i);
      PartitionEnd(done, FreedFrom(t, p, 0));
    }

    /**
     `free_blocks`: the blocks in `FreedSlots` are cleared, each once. The inode's pointers are
     left as they were; `blockCnt` is reset. One loop stands for the two over direct and
     indirect slots, since `free_ptr` at layer 0 is `clear_block_bitmap`.
     */
    method FreeBlocks()
      requires Valid()
      modifies bitmap, this`freeCnt, this`blockCnt
      ensures Cleared(old(UsedBlocks()), old(freeCnt), UsedBlocks(), freeCnt, FreedSlots(Tree(), 0))
      ensures blockCnt == 0 && Books(freeCnt, UsedBlocks()) == old(Books(freeCnt, UsedBlocks()))
    {
      hide Cleared, FreedAt, FreedSlots, Value, Partition, Owns, Injective, HasTables, Books;
      ghost var t := Tree();
      OwnedFits(t, owned, bitmap[..]);
      ghost var done: set<nat> := {};
      ClearedNone(UsedBlocks(), freeCnt);
      PartitionStart(FreedSlots(t, 0));
      var i := 0;
      while i < N_BLOCKS
        invariant 0 <= i <= N_BLOCKS && freeCnt < U16
        invariant Partition(done, FreedSlots(t, i), FreedSlots(t, 0))
        invariant Cleared(old(UsedBlocks()), old(freeCnt), UsedBlocks(), freeCnt, done)
      {
        var bid := blocks[i];
        SlotStep(t, i);
        if bid == 0 {
          assert FreedSlots(t, i) == FreedSlots(t, i + 1);
        } else {
          ghost var used, cnt := UsedBlocks(), freeCnt;
          SlotsDisjoint(t, i);
          FreePtr(bid, Depth(i), [i]);
          PartitionStep(done, FreedAt(t, [i]), FreedSlots(t, i + 1), FreedSlots(t, 0));
          ClearedMore(old(UsedBlocks()), old(freeCnt), used, cnt, done, UsedBlocks(), freeCnt, FreedAt(t, [i]));
          done := done + FreedAt(t, [i]);
        }
        i := i + 1;
      }
      NoMoreSlots(t);
      PartitionEnd(done, FreedSlots(t, 0));
      FreedBalances(t, owned, old(UsedBlocks()), old(freeCnt), UsedBlocks(), freeCnt);
      blockCnt := 0;
    }

    method LoadFor(slot: Slot, ghost p: Path) returns (v: nat)
      requires blocks.Length == N_BLOCKS && |p| >= 1 && p[0] < N_BLOCKS && SlotFor(Tree(), slot, p)
      ensures v == Value(Tree(), p)
    {
      v := Load(slot);
    }

    lemma NoFreeBits()
      ensures FreeBits(UsedBlocks(), scan) == {} ==> FullPrefix()
    {
      forall i: nat | i < 8 * scan && i !in UsedBlocks() ensures i in FreeBits(UsedBlocks(), scan) { }
    }

    ghost predicate FullPrefix()
      reads this, bitmap
    {
      forall i: nat :: i < 8 * scan ==> i in UsedBlocks()
    }
  }

  lemma TableEntries(t: Tree, p: Path)
    requires WellFormed(t) && IsPath(t.n, p) && !IsLeaf(t.n, p) && Value(t, p) != 0
    ensures Value(t, p) in t.tables && |t.tables[Value(t, p)]| == t.n
    ensures forall i: nat :: i < t.n ==> Value(t, Child(p, i)) == t.tables[Value(t, p)][i]
  {
    forall i: nat | i < t.n ensures Value(t, Child(p, i)) == t.tables[Value(t, p)][i] {
      assert Up(Child(p, i)) == p;
    }
  }

  /** The file's blocks are inside the bitmap, so that clearing them is possible. */
  ghost predicate Fits(t: Tree, bytes: nat) {
    WellFormed(t) && forall p :: IsPath(t.n, p) ==> Value(t, p) / 8 < bytes
  }

  lemma OwnedFits(t: Tree, owned: set<nat>, bytes: seq<Byte>)
    requires WellFormed(t) && Owns(t, owned) && owned <= UsedSet(bytes) && 0 in UsedSet(bytes)
    ensures Fits(t, |bytes|)
  {
    forall p | IsPath(t.n, p) ensures Value(t, p) / 8 < |bytes| {
      assert Value(t, p) != 0 ==> Holds(t, Value(t, p));
    }
  }

  /** The free counter and the number of used blocks, which have to add up to the same number at all times. */
  ghost function Books(cnt: nat, used: set<nat>): nat { (cnt + |used|) % 0x1_0000 }

  /** Blocks that are taken leave the books balanced: the 16-bit counter follows the bitmap. */
  lemma AccountedBalances(s0: FileState, s: FileState, added: set<nat>)
    requires Accounted(s0, s, added)
    ensures Books(s.freeCnt, s.used) == Books(s0.freeCnt, s0.used)
  {
    assert |s0.used + added| == |s0.used| + |added|;
    TakenFrom(s0.freeCnt, |added|, |s0.used|);
  }

  lemma TakenFrom(c: nat, k: nat, n: nat)
    ensures (Sub16(c, k) + (n + k)) % 0x1_0000 == (c + n) % 0x1_0000
  {
    var q := (c - k) / U16;
    assert c - k == q * U16 + Sub16(c, k);
    assert c + n == q * U16 + (Sub16(c, k) + (n + k));
  }

  /** So do blocks that are given back. */
  lemma ClearedBalances(used0: set<nat>, cnt0: nat, used: set<nat>, cnt: nat, done: set<nat>)
    requires Cleared(used0, cnt0, used, cnt, done) && done <= used0
    ensures Books(cnt, used) == Books(cnt0, used0)
  {
    assert used0 == used + done;
    assert |used + done| == |used| + |done|;
    var q := (cnt0 + |done|) / U16;
    assert cnt0 + |done| == q * U16 + cnt;
    assert cnt0 + |used0| == q * U16 + (cnt + |used|);
  }

  lemma FreedBalances(t: Tree, owned: set<nat>, used0: set<nat>, cnt0: nat, used: set<nat>, cnt: nat)
    requires WellFormed(t) && Owns(t, owned) && owned <= used0
    requires Cleared(used0, cnt0, used, cnt, FreedSlots(t, 0))
    ensures Books(cnt, used) == Books(cnt0, used0)
  {
    hide Owns, Cleared, Books, Value;
    FreedAreOwned(t, owned);
    ClearedBalances(used0, cnt0, used, cnt, FreedSlots(t, 0));
  }

  /** The bits of `done` were cleared, with one increment of the free counter for each. */
  ghost predicate Cleared(used0: set<nat>, cnt0: nat, used: set<nat>, cnt: nat, done: set<nat>) {
    cnt < U16 && used == used0 - done && cnt == Add16(cnt0, |done|)
  }

  lemma ClearedNone(used: set<nat>, cnt: nat)
    requires cnt < U16
    ensures Cleared(used, cnt, used, cnt, {})
  {
  }

  lemma ClearedMore(used0: set<nat>, cnt0: nat, used1: set<nat>, cnt1: nat, a: set<nat>,
                    used2: set<nat>, cnt2: nat, b: set<nat>)
    requires Cleared(used0, cnt0, used1, cnt1, a) && Cleared(used1, cnt1, used2, cnt2, b) && a !! b
    ensures Cleared(used0, cnt0, used2, cnt2, a + b) && cnt2 < U16
  {
    assert |a + b| == |a| + |b|;
  }

  ghost predicate Partition(done: set<nat>, rest: set<nat>, all: set<nat>) {
    done !! rest && done + rest == all
  }

  lemma PartitionStart(all: set<nat>)
    ensures Partition({}, all, all)
  {
  }

  lemma PartitionStep(done: set<nat>, x: set<nat>, rest: set<nat>, all: set<nat>)
    requires Partition(done, x + rest, all) && x !! rest
    ensures Partition(done + x, rest, all) && done !! x
  {
  }

  lemma PartitionEnd(done: set<nat>, all: set<nat>)
    requires Partition(done, {}, all)
    ensures done == all
  {
  }

  lemma NextEntry(t: Tree, p: Path, i: nat)
    requires WellFormed(t) && IsPath(t.n, p) && !IsLeaf(t.n, p) && i < t.n && Value(t, Child(p, i)) != 0
    ensures IsPath(t.n, Child(p, i)) && Child(p, i)[0] == p[0] && |Child(p, i)| == |p| + 1
    ensures FreedFrom(t, p, i) == FreedAt(t, Child(p, i)) + FreedFrom(t, p, i + 1)
  {
  }

  lemma SlotStep(t: Tree, i: nat)
    requires WellFormed(t) && i < N_BLOCKS
    ensures IsPath(t.n, [i]) && Value(t, [i]) == t.blocks[i]
    ensures FreedSlots(t, i) == (if t.blocks[i] == 0 then {} else FreedAt(t, [i])) + FreedSlots(t, i + 1)
  {
  }

  lemma NoMoreSlots(t: Tree)
    requires |t.blocks| == N_BLOCKS
    ensures FreedSlots(t, N_BLOCKS) == {}
  {
  }

  lemma NoMoreEntries(t: Tree, p: Path, i: nat)
    requires WellFormed(t) && IsPath(t.n, p) && !IsLeaf(t.n, p) && i <= t.n
    requires i < t.n ==> Value(t, Child(p, i)) == 0
    ensures FreedFrom(t, p, i) == {}
  {
  }

  lemma FirstPrefix(n: nat, p: Path)
    requires IsPath(n, p)
    ensures IsPath(n, p[..1]) && p[..1] <= p
  {
  }

  lemma NextSlot(t: Tree, q: Path, p: Path, v: nat, d: nat)
    requires |t.blocks| == N_BLOCKS && IsPath(t.n, q) && IsPath(t.n, p) && q <= p && |q| < |p|
    requires Value(t, q) == v != 0 && p[|q|] == d
    ensures var r := p[..|q| + 1]; IsPath(t.n, r) && r <= p && SlotFor(t, InTable(v, d), r)
  {
    var r := p[..|q| + 1];
    assert Up(r) == q;
  }

  lemma SlotFillable(t: Tree, p: Path)
    requires WellFormed(t) && IsPath(t.n, p) && Value(t, p) == 0
    requires |p| > 1 ==> Value(t, Up(p)) != 0
    ensures Fillable(t, p)
  {
    if |p| > 1 { UpIsPath(t.n, p); }
  }

  lemma UnusedIsFresh(t: Tree, owned: set<nat>, bid: nat)
    requires |t.blocks| == N_BLOCKS && Owns(t, owned) && bid !in owned && bid != 0
    ensures Fresh(t, bid)
  {
    assert !Holds(t, bid);
  }
}
