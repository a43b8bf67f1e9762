/**
 Reading and writing an open regular file: `vfs_read`, `vfs_write`, `vfs_lseek`
 (kernel/fs/vfs.c) over `ext2_read` and `ext2_write` (kernel/fs/ext2/ext2.c), on the block
 map of `BlockFile` and the pages of the file's blocks.
 */
module FileIO {
  import opened Platform
  import opened Dyadic
  import opened Seqs
  import opened BlockTree
  import opened BlockFile
  import opened BlockRuns
  import opened FileBytes

  /** `bids` lists the blocks of the file: 0, 1, 2, ... are mapped to them and nothing else is mapped. */
  ghost predicate Maps(s: FileState, bids: seq<nat>) {
    && Consistent(s) && |bids| <= Limit(s.tree.n) && NoDup(bids) && (bids == [] ==> s.blockCnt == 0)
    && (forall b: nat :: b < |bids| ==> bids[b] != 0 && bids[b] == Lookup(s.tree, b) && bids[b] in s.used)
    && (forall b: nat :: |bids| <= b < Limit(s.tree.n) ==> Lookup(s.tree, b) == 0)
  }

  /** The next block number was mapped. */
  lemma MapsGrow(s: FileState, s': FileState, bids: seq<nat>, bid: nat)
    requires Maps(s, bids) && |bids| < Limit(s.tree.n) && Consistent(s') && Inserted(s, s', |bids|, bid)
    ensures Maps(s', bids + [bid])
  {
    hide Consistent, Limit, Lookup, WellFormed, Missing;
    var bids' := bids + [bid];
    assert s'.tree.n == s.tree.n && Accounted(s, s', s'.owned - s.owned);
    InsertedUsed(s, s', |bids|, bid);
    AppendSpec(bids, bid);
  }

  lemma InsertedUsed(s: FileState, s': FileState, bno: nat, bid: nat)
    requires Consistent(s') && Inserted(s, s', bno, bid)
    ensures bid in s'.used
  {
    LookupUsed(s', bno);
  }

  /** Mapped blocks are in use. */
  lemma LookupUsed(s: FileState, bno: nat)
    requires Consistent(s) && bno < Limit(s.tree.n) && Lookup(s.tree, bno) != 0
    ensures Lookup(s.tree, bno) in s.used
  {
    PathOfLeaf(s.tree.n, bno);
    assert BlockTree.Holds(s.tree, Lookup(s.tree, bno));
  }

  /** An open file: inode, block map and pages. `None` results stand for a halted kernel. */
  class Node {
    const file: File
    const blockSize: nat
    const regular: bool                // type & EXT2_IFREG
    var size: nat
    var offset: nat
    var pages: map<nat, FileBytes.Page>
    ghost var bids: seq<nat>
    ghost var cells: seq<nat>          // the bytes of all mapped blocks

    /** An open, empty file; the pages may hold anything. */
    constructor (file: File, blockSize: nat, regular: bool, pages: map<nat, FileBytes.Page>)
      requires file.Valid() && EmptyFile(file.State()) && blockSize >= 1
      requires forall b :: b in pages ==> |pages[b]| == blockSize
      ensures Valid() && Contents() == [] && offset == size == 0
      ensures this.file == file && this.regular == regular && this.blockSize == blockSize
    {
      this.file, this.blockSize, this.regular, this.pages := file, blockSize, regular, pages;
      size, offset, bids, cells := 0, 0, [], [];
      new;
      EmptyMaps(file.State());
      CeilSpec(0, blockSize);
    }

    ghost predicate Valid()
      reads this, file, file.blocks, file.bitmap
    {
      && file.Shape() && Maps(file.State(), bids)
      && Layout(size, blockSize, pages, bids, cells)
    }

    /** The bytes of the file. */
    ghost function Contents(): seq<nat>
      requires Valid()
      reads this, file, file.blocks, file.bitmap
    {
      cells[..size]
    }

    /** The block behind the last one is allocated. */
    method MapNext() returns (r: Option<nat>)
      requires Valid()
      modifies file, file.blocks, file.bitmap
      ensures r.Some? ==> file.Shape() && Maps(file.State(), bids + [r.value])
      ensures r.None? ==> NoSpace(file, |bids|)
    {
      assert file.Valid() && file.State().tree == file.Tree() && file.Tree().n == file.nPtr;
      assert |bids| == CeilDiv(size, blockSize);
      hide Valid, Maps, Layout, Limit, Consistent, Lookup, Value, CeilDiv,
        Inserted, Extended, BlockFile.File.FullPrefix;
      ghost var s0 := file.State();
      NextUnmapped(s0, bids);
      r := file.AllocBlock(CeilDiv(size, blockSize));
      if r.Some? {
        StillValid(file);
        MapsGrow(s0, file.State(), bids, r.value);
      }
    }

    /** A new block at the end of a file whose blocks are full. */
    method NewEndPage() returns (r: Option<nat>)
      requires Valid() && blockSize >= 1 && |bids| == size / blockSize
      modifies `pages, `bids, `cells, file, file.blocks, file.bitmap
      ensures r.Some? ==> file.Shape() && Maps(file.State(), bids) && Room(size, blockSize, pages, bids, cells)
      ensures r.Some? ==> |bids| == |old(bids)| + 1 && bids[|old(bids)|] == r.value && old(cells) <= cells
      ensures r.None? ==> NoSpace(file, |bids|)
    {
      assert Layout(size, blockSize, pages, bids, cells);
      hide *;
      r := MapNext();
      if r.None? { return; }
      var after := if r.value in pages then pages else pages[r.value := Zeros(blockSize)];
      RoomGrow(size, blockSize, pages, after, bids, cells, r.value);
      pages, bids, cells := after, bids + [r.value], cells + after[r.value];
    }

    /** The page that the next byte of the file goes to; a new block is mapped when the last one is full. */
    method PageForEnd() returns (r: Option<nat>)
      requires Valid()
      modifies `pages, `bids, `cells, file, file.blocks, file.bitmap
      ensures r.Some? ==> file.Shape() && Maps(file.State(), bids) && Room(size, blockSize, pages, bids, cells)
      ensures r.Some? ==> bids[size / blockSize] == r.value && old(cells) <= cells
      ensures r.None? ==> NoSpace(file, |bids|)
    {
      assert file.Valid();
      var bno := size / blockSize;
      CeilSpec(size, blockSize);
      hide Maps, Consistent, Limit, Lookup, Value, BlockStart, Stored;
      if bno < CeilDiv(size, blockSize) {
        BidIs(file.State(), bids, bno);
        r := file.GetBid(bno);
      } else {
        r := NewEndPage();
      }
    }

    /** `ext2_write` at the end of the file: at most up to the end of the block. */
    method Ext2Write(buf: seq<nat>) returns (r: Option<nat>)
      requires Valid() && offset == size && |buf| >= 1 && blockSize >= 1
      modifies `size, `pages, `bids, `cells, file, file.blocks, file.bitmap
      ensures r.Some? ==> Valid()
      ensures r.Some? ==>
        && regular && 1 <= r.value <= |buf| && r.value == Min(blockSize - old(offset) % blockSize, |buf|)
        && size == old(size) + r.value && Contents() == old(Contents()) + buf[..r.value]
      ensures r.None? ==> !regular || NoSpace(file, |bids|)
    {
      hide Maps, Stored, BlockStart, CeilDiv, Patch;
      if !regular { return None; }
      var blkOffset := offset % blockSize;
      var n := Min(blockSize - blkOffset, |buf|);
      var bid := PageForEnd();
      if bid.None? { return None; }
      MapsShape(file.State(), bids);
      Appended(size, blockSize, pages, bids, cells, buf[..n]);
      ghost var was := cells;
      pages := pages[bid.value := Patch(pages[bid.value], blkOffset, buf[..n])];
      cells := Patch(cells, size, buf[..n]);
      size := offset + n;
      assert old(cells)[..old(size)] == was[..old(size)];
      return Some(n);
    }

    /** `vfs_write` at the end of the file appends the whole buffer. */
    method VfsWrite(buf: seq<nat>) returns (r: Option<nat>)
      requires Valid() && offset == size && offset + |buf| < U32 && blockSize >= 1
      modifies this, file, file.blocks, file.bitmap
      ensures r.Some? ==> Valid() && offset == size && r.value == |buf| && Contents() == old(Contents()) + buf
      ensures r.None? ==> (!regular && buf != []) || NoSpace(file, |bids|)
    {
      hide *;
      var done := 0;
      while done < |buf|
        invariant done <= |buf| && Valid() && offset == size
        invariant Contents() == old(Contents()) + buf[..done]
      {
        var wt := Ext2Write(buf[done..]);
        if wt.None? { return None; }
        assert buf[..done + wt.value] == buf[..done] + buf[done..][..wt.value];
        Bump(wt.value);
        done := done + wt.value;
      }
      assert buf[..|buf|] == buf;
      return Some(done);
    }

    /** `node->offset += n` */
    method Bump(n: nat)
      modifies `offset
      ensures offset == old(offset) + n
      ensures old(Valid()) ==> Valid() && Contents() == old(Contents()) && cells == old(cells)
    {
      offset := offset + n;
    }

    /** `ext2_read`: bytes of one block; the end of the file is not looked at, only the end of its last block. */
    method Ext2Read(len: nat) returns (buf: seq<nat>)
      requires Valid() && len >= 1
      ensures blockSize >= 1 && buf == Window(cells, offset, Min(blockSize - offset % blockSize, len))
      ensures buf == [] <==> offset >= |cells|
    {
      hide Consistent, Value, PathOf, Lookup, Stored, BlockStart, CeilDiv, Maps;
      MapsShape(file.State(), bids);
      StoredShape(pages, bids, blockSize, cells);
      var blkOffset, bno := offset % blockSize, offset / blockSize;
      CeilSpec(offset, blockSize);
      BlockInside(offset, blockSize, CeilDiv(size, blockSize));
      if bno >= CeilDiv(size, blockSize) { return []; }
      var n := Min(blockSize - blkOffset, len);
      var bid := file.GetBid(bno);
      BidIs(file.State(), bids, bno);
      ReadSpec(pages, bids, blockSize, cells, bno, blkOffset, n);
      if bid.value == 0 { return []; }
      return pages[bid.value][blkOffset..blkOffset + n];
    }

    /** `vfs_read`: the bytes from the offset on, up to the end of the last block. */
    method VfsRead(len: nat) returns (buf: seq<nat>)
      requires Valid() && offset + len < U32
      modifies `offset
      ensures Valid() && Contents() == old(Contents()) && cells == old(cells)
      ensures buf == Window(cells, old(offset), len) && offset == old(offset) + |buf|
    {
      hide Valid, Maps, Layout, Window;
      buf := [];
      var remain := len;
      WindowEmpty(cells, offset);
      while remain > 0
        invariant remain >= 0 && remain + |buf| == len && offset == old(offset) + |buf| && Valid()
        invariant Contents() == old(Contents()) && cells == old(cells) && buf == Window(cells, old(offset), |buf|)
        decreases remain
      {
        var rd := Ext2Read(remain);
        WindowJoin(cells, old(offset), |buf|, Min(blockSize - offset % blockSize, remain), len);
        if |rd| == 0 { return; }
        buf := buf + rd;
        Bump(|rd|);
        remain := remain - |rd|;
      }
    }

    /** `vfs_lseek`. */
    method VfsLseek(d: int, whence: Whence) returns (r: int)
      requires -0x8000_0000 <= d < 0x8000_0000 && offset < U32 && size < U32
      modifies `offset
      ensures var to := SeekTo(whence, size, old(offset), d);
        if to.None? then r == -1 && offset == old(offset) else offset == to.value && r == ToInt32(offset)
      ensures SeekTo(whence, size, old(offset), d).Some? ==>
                r == if offset < 0x8000_0000 then offset else offset - 0x1_0000_0000
      ensures old(Valid()) ==> Valid() && Contents() == old(Contents()) && cells == old(cells)
    {
      match whence {
        case Set =>
          if d < 0 { return -1; }
          offset := d;
        case End =>
          var end: int := size + d;
          if end < 0 { return -1; }
          offset := end % U32;
        case Cur =>
          var end: int := (offset + d) % U32;     // unsigned 32-bit addition
          if end < 0 { return -1; }
          offset := end;
      }
      return ToInt32(offset);
    }
  }

  lemma StillValid(file: File)
    requires file.Valid()
    ensures file.Shape() && Consistent(file.State())
  {
  }

  /** At most `len` bytes from `at` on. */
  ghost function Window(cells: seq<nat>, at: nat, len: nat): seq<nat> {
    if at >= |cells| then [] else cells[at..Min(at + len, |cells|)]
  }

  lemma WindowJoin(cells: seq<nat>, at: nat, a: nat, b: nat, len: nat)
    requires |Window(cells, at, a)| == a && a + b <= len
    ensures Window(cells, at, a) + Window(cells, at + a, b) == Window(cells, at, a + |Window(cells, at + a, b)|)
    ensures at + a >= |cells| ==> Window(cells, at, a) == Window(cells, at, len)
    ensures |Window(cells, at + a, b)| <= b
  {
  }

  lemma WindowEmpty(cells: seq<nat>, at: nat)
    ensures Window(cells, at, 0) == []
  {
  }

  /** Inside the file, what `vfs_read` returns is a slice of the contents. */
  lemma WindowInside(cells: seq<nat>, size: nat, at: nat, len: nat)
    requires at + len <= size <= |cells|
    ensures Window(cells, at, len) == cells[..size][at..at + len]
  {
  }

  /** A block number is below the block count exactly when its bytes are inside the blocks. */
  lemma BlockInside(at: nat, bs: nat, count: nat)
    requires bs >= 1
    ensures at / bs < count <==> at < BlockStart(bs, count)
  {
    CeilSpec(at, bs);
    if at / bs < count {
      StartOrder(bs, at / bs, count);
    } else if count < at / bs {
      StartOrder(bs, count, at / bs);
    }
  }

  datatype Whence = Set | Cur | End

  function ToInt32(x: nat): int { if x < 0x8000_0000 then x else x - U32 }

  /** The offset that `vfs_lseek` sets, or `None` for the result -1. */
  function SeekTo(whence: Whence, size: nat, offset: nat, d: int): Option<nat> {
    match whence
    case Set => if d < 0 then None else Some(d)
    case End => if size + d < 0 then None else Some((size + d) % U32)
    case Cur => Some((offset + d) % U32)
  }

  function Target(whence: Whence, size: nat, offset: nat, d: int): int {
    match whence case Set => d case End => size + d case Cur => offset + d
  }

  /**
   Seeking goes to the target, or refuses a negative one, exactly when the target has 32 bits and
   it is not a relative seek before the start.
   */
  lemma SeekExact(whence: Whence, size: nat, offset: nat, d: int)
    ensures var t := Target(whence, size, offset, d);
      SeekTo(whence, size, offset, d) == (if t < 0 then None else Some(t)) <==>
        whence.Set? || (t < U32 && !(whence.Cur? && t < 0))
  {
  }

  /** One byte back from offset 0 is not refused but wraps; so does one byte on from the largest offset or size. */
  lemma SeekBeforeStart()
    ensures SeekTo(Cur, 10, 0, -1) == Some(0xFFFF_FFFF)
    ensures SeekTo(Cur, 0, 0xFFFF_FFFF, 1) == Some(0) && SeekTo(End, 0xFFFF_FFFF, 0, 1) == Some(0)
  {
  }

  /** Why the kernel stops in a write: no free block in the searched part of the bitmap, or no block number left. */
  ghost predicate NoSpace(file: File, blocks: nat)
    reads file, file.bitmap
  {
    file.FullPrefix() || Limit(file.nPtr) <= blocks
  }

  /** The blocks reach past the end of the file. */
  ghost predicate Room(size: nat, bs: nat, pages: map<nat, FileBytes.Page>, bids: seq<nat>, cells: seq<nat>) {
    && Stored(pages, bids, bs, cells) && |bids| == size / bs + 1
    && forall b :: b in pages ==> |pages[b]| == bs
  }

  lemma RoomGrow(size: nat, bs: nat, was: map<nat, FileBytes.Page>, pages: map<nat, FileBytes.Page>,
                 bids: seq<nat>, cells: seq<nat>, bid: nat)
    requires Layout(size, bs, was, bids, cells) && |bids| == size / bs && bid in pages
    requires pages == if bid in was then was else was[bid := Zeros(bs)]
    ensures Room(size, bs, pages, bids + [bid], cells + pages[bid])
  {
    hide BlockStart;
    assert Stored(pages, bids, bs, cells) by {
      forall k: nat | k < |bids| ensures PageIs(pages, bids, bs, cells, k) {
        assert PageIs(was, bids, bs, cells, k);
      }
    }
    GrowSpec(pages, bids, bs, cells, bid);
  }

  /** Bytes put behind the end, inside one block, extend the contents by exactly these bytes. */
  lemma Appended(size: nat, bs: nat, pages: map<nat, FileBytes.Page>, bids: seq<nat>, cells: seq<nat>, b: seq<nat>)
    requires Room(size, bs, pages, bids, cells) && NoDup(bids) && 1 <= |b| && size % bs + |b| <= bs
    ensures var bid := bids[size / bs];
      && bid in pages && |pages[bid]| == bs && size + |b| <= |cells|
      && Layout(size + |b|, bs, pages[bid := Patch(pages[bid], size % bs, b)], bids, Patch(cells, size, b))
    ensures Patch(cells, size, b)[..size + |b|] == cells[..size] + b
  {
    CeilSpec(size, bs);
    CeilWithin(size, |b|, bs);
    WriteSpec(pages, bids, bs, cells, size / bs, size % bs, b);
  }

  ghost predicate Layout(size: nat, bs: nat, pages: map<nat, FileBytes.Page>, bids: seq<nat>, cells: seq<nat>) {
    && Stored(pages, bids, bs, cells) && |bids| == CeilDiv(size, bs) && size <= |cells|
    && forall b :: b in pages ==> |pages[b]| == bs
  }

  lemma MapsShape(s: FileState, bids: seq<nat>)
    requires Maps(s, bids)
    ensures Consistent(s) && NoDup(bids)
  {
  }

  lemma StoredShape(pages: map<nat, FileBytes.Page>, bids: seq<nat>, bs: nat, cells: seq<nat>)
    requires Stored(pages, bids, bs, cells)
    ensures bs >= 1 && |cells| == BlockStart(bs, |bids|)
  {
  }

  lemma EmptyMaps(s: FileState)
    requires EmptyFile(s)
    ensures Maps(s, [])
  {
    EmptyOwnsNothing(s);
    forall b: nat | b < Limit(s.tree.n) ensures Lookup(s.tree, b) == 0 {
      PathOfLeaf(s.tree.n, b);
    }
  }

  lemma BidIs(s: FileState, bids: seq<nat>, bno: nat)
    requires Maps(s, bids) && bno < |bids|
    ensures bno < Limit(s.tree.n) && bids[bno] == Value(s.tree, PathOf(s.tree.n, bno)) != 0
  {
  }

  /**
   The next block number is free, and block 0 is there unless it is the next: `find_group` does not stop
   the kernel.
   */
  lemma NextUnmapped(s: FileState, bids: seq<nat>)
    requires Maps(s, bids)
    ensures |bids| < Limit(s.tree.n) ==> Lookup(s.tree, |bids|) == 0
    ensures !(s.tree.blocks[0] == 0 && (s.blockCnt != 0 || |bids| >= N_DIRECT))
  {
    if bids != [] {
      DirectPath(s.tree, 0);
      assert bids[0] == Lookup(s.tree, 0);
    }
  }

  /** Exactly the block numbers below ceil(size / blockSize) are mapped. */
  lemma MappedExactly(node: Node, b: nat)
    requires node.Valid() && b < Limit(node.file.nPtr)
    ensures node.blockSize >= 1 && |node.file.Tree().blocks| == N_BLOCKS && node.file.nPtr >= 1
    ensures Lookup(node.file.Tree(), b) != 0 <==> b < CeilDiv(node.size, node.blockSize)
  {
    assert |node.bids| == CeilDiv(node.size, node.blockSize);
    var s := node.file.State();
    if b < |node.bids| {
      assert node.bids[b] == Lookup(s.tree, b);
    }
  }

  /** How many bytes a read returns: up to the end of the last block, not of the file. */
  lemma ReadLength(node: Node, len: nat)
    requires node.Valid()
    ensures node.blockSize >= 1
    ensures var past := BlockStart(node.blockSize, CeilDiv(node.size, node.blockSize));
      |Window(node.cells, node.offset, len)| == if node.offset >= past then 0 else Min(len, past - node.offset)
  {
  }

  /**
   A read stops where the file ends exactly when it does not reach the end, or the file fills its
   last block, or the read begins behind that block.
   */
  lemma ReadStopsAtEnd(node: Node, len: nat)
    requires node.Valid()
    ensures node.blockSize >= 1
    ensures |Window(node.cells, node.offset, len)| ==
            (if node.offset >= node.size then 0 else Min(len, node.size - node.offset))
      <==> (len == 0 || node.offset + len <= node.size || node.size % node.blockSize == 0 ||
            node.offset >= |node.cells|)
  {
    CeilSpec(node.size, node.blockSize);
    StartStep(node.blockSize, node.size / node.blockSize);
    ReadLength(node, len);
  }

  /** Reading two bytes of a file of one byte gives two. */
  lemma OneByteTooMany(node: Node)
    requires node.Valid() && node.size == 1 && node.offset == 0 && node.blockSize >= 2
    ensures |Window(node.cells, node.offset, 2)| == 2
  {
    ReadStopsAtEnd(node, 2);
    CeilSpec(1, node.blockSize);
    ReadLength(node, 2);
  }

  ghost function Concat(writes: seq<seq<nat>>): seq<nat> {
    if writes == [] then [] else Concat(writes[..|writes| - 1]) + writes[|writes| - 1]
  }

  lemma {:induction false} ConcatLength(writes: seq<seq<nat>>, k: nat)
    requires k <= |writes|
    ensures |Concat(writes[..k])| <= |Concat(writes)|
    ensures k < |writes| ==> |Concat(writes[..k])| + |writes[k]| <= |Concat(writes)|
    decreases |writes|
  {
    if k == |writes| {
      assert writes[..k] == writes;
    } else {
      var front := writes[..|writes| - 1];
      assert front[..k] == writes[..k];
      ConcatLength(front, k);
      assert k < |front| ==> front[k] == writes[k];
    }
  }

  /**
   The round trip: any sequence of writes to an empty regular file, then a seek and a read
   inside the file, yields exactly that slice of the concatenated writes.
   */
  method AppendThenRead(node: Node, writes: seq<seq<nat>>, at: nat, len: nat) returns (r: Option<seq<nat>>)
    requires node.Valid() && node.regular && node.offset == node.size == 0 && node.blockSize >= 1
    requires at + len <= |Concat(writes)| < 0x8000_0000
    modifies node, node.file, node.file.blocks, node.file.bitmap
    ensures r.Some? ==> node.Valid() && node.Contents() == Concat(writes)
    ensures r.Some? ==> r.value == Concat(writes)[at..at + len]
    ensures r.None? ==> NoSpace(node.file, |node.bids|)
  {
    hide Maps, Layout, Window;
    for k := 0 to |writes|
      invariant node.Valid() && node.offset == node.size && node.Contents() == Concat(writes[..k])
    {
      ConcatLength(writes, k);
      ContentsMeans(node);
      var n := node.VfsWrite(writes[k]);
      if n.None? { return None; }
      assert writes[..k + 1][..k] == writes[..k];
      assert writes[k][..|writes[k]|] == writes[k];
    }
    assert writes[..|writes|] == writes;
    ghost var size, cells := node.size, node.cells;
    ContentsMeans(node);
    WindowInside(cells, size, at, len);
    var _ := node.VfsLseek(at, Set);
    var buf := node.VfsRead(len);
    return Some(buf);
  }

  lemma ContentsMeans(node: Node)
    requires node.Valid()
    ensures node.size <= |node.cells| && node.Contents() == node.cells[..node.size]
  {
  }
}
