/**
 A directory of up to 12 direct blocks (kernel/fs/ext2/dir.c): `create_dir_entry`,
 `remove_from_parent`, `find_entry_disk`, `make_empty_dir` and `dir_empty`, in place on
 the cached blocks.
 */
module Directory {
  import opened Platform
  import opened DirBlock
  import opened DirEntries

  const FT_DIR: nat := 2            // EXT2_FT_DIR
  const N_DIRECT_BLOCK: nat := 12
  const DOT: nat := 46

  // ------------------------------------------------------------- the blocks

  ghost predicate AllTiled(bs: seq<Block>, size: nat) {
    forall i :: 0 <= i < |bs| ==> Tiled(bs[i], 0, size)
  }

  /** The entries of all blocks, in order. */
  ghost function All(bs: seq<Block>, size: nat): seq<Entry>
    requires AllTiled(bs, size)
  {
    if bs == [] then [] else Entries(bs[0], 0, size) + All(bs[1..], size)
  }

  lemma {:induction false} AllJoin(a: seq<Block>, b: seq<Block>, size: nat)
    requires AllTiled(a, size) && AllTiled(b, size)
    ensures AllTiled(a + b, size) && All(a + b, size) == All(a, size) + All(b, size)
  {
    hide Tiled, Entries;
    if a == [] {
      assert a + b == b;
    } else {
      assert (a + b)[1..] == a[1..] + b;
      AllJoin(a[1..], b, size);
    }
  }

  lemma AllOne(m: Block, size: nat)
    requires Tiled(m, 0, size)
    ensures AllTiled([m], size) && All([m], size) == Entries(m, 0, size)
  {
    hide Tiled, Entries;
    assert [m][1..] == [];
  }

  /** One block changed: the entries before and behind it stay. */
  lemma AllSplit(bs: seq<Block>, b: nat, m: Block, size: nat)
    requires AllTiled(bs, size) && b < |bs| && Tiled(m, 0, size)
    ensures AllTiled(bs[..b], size) && AllTiled(bs[b + 1..], size) && AllTiled(bs[b := m], size)
    ensures All(bs[b := m], size) == All(bs[..b], size) + Entries(m, 0, size) + All(bs[b + 1..], size)
  {
    hide Tiled, Entries, All;
    AllOne(m, size);
    AllJoin(bs[..b], [m], size);
    AllJoin(bs[..b] + [m], bs[b + 1..], size);
    assert bs[b := m] == bs[..b] + [m] + bs[b + 1..];
  }

  /** No record of the chain has room for `need` bytes. */
  predicate NoRoom(m: Block, a: nat, b: nat, need: nat)
    requires Tiled(m, a, b)
    decreases b - a
  {
    a == b || (!Fits(m[a], need) && NoRoom(m, a + m[a].entrySize, b, need))
  }

  lemma {:induction false} NoRoomJoin(m: Block, a: nat, b: nat, c: nat, need: nat)
    requires Tiled(m, a, b) && Tiled(m, b, c) && Tiled(m, a, c)
    ensures NoRoom(m, a, c, need) <==> NoRoom(m, a, b, need) && NoRoom(m, b, c, need)
    decreases b - a
  {
    TiledOrder(m, b, c);
    assert a < b ==> RecOk(m[a]) && m[a].entrySize > 0;
    hide Fits, RecOk;
    if a < b { NoRoomJoin(m, a + m[a].entrySize, b, c, need); }
  }

  /** A record that is free is not followed by another free one. */
  ghost predicate Settled(m: Block, at: nat, end: nat) {
    at in m && (m[at].inode != 0 ||
      var next := at + m[at].entrySize; next == end || (next in m && m[next].inode != 0))
  }

  lemma SettledMeans(m: Block, at: nat, end: nat)
    requires at in m
    ensures Settled(m, at, end) <==>
      || m[at].inode != 0 || at + m[at].entrySize == end
      || (at + m[at].entrySize in m && m[at + m[at].entrySize].inode != 0)
  {
  }

  /** The record at `at` is the first of the block with room. */
  ghost predicate FirstRoom(m: Block, at: nat, end: nat, need: nat) {
    && at < end && Tiled(m, 0, at) && Tiled(m, at, end)
    && NoRoom(m, 0, at, need) && at in m && RecOk(m[at]) && Fits(m[at], need)
  }

  lemma FirstRoomMeans(m: Block, at: nat, end: nat, need: nat)
    requires at < end && Tiled(m, 0, at) && Tiled(m, at, end) && NoRoom(m, 0, at, need) && Fits(m[at], need)
    ensures FirstRoom(m, at, end, need)
  {
  }

  /** Advancing a scan by one record. */
  lemma ScanStep(m: Block, at: nat, end: nat)
    requires Tiled(m, 0, at) && Tiled(m, at, end) && at < end
    ensures var next := at + m[at].entrySize;
      && at < next <= end && Tiled(m, 0, next) && Tiled(m, next, end) && Tiled(m, 0, end)
      && Entries(m, 0, next) == Entries(m, 0, at) + Head(m[at])
      && Entries(m, 0, end) == Entries(m, 0, at) + Head(m[at]) + Entries(m, next, end)
  {
    var next := at + m[at].entrySize;
    assert at in m && RecOk(m[at]) && Tiled(m, next, end) && at < next;
    hide *;
    TiledOrder(m, next, end);
    TiledEmpty(m, next);
    TiledStep(m, at, next);
    NoRecords(m, next);
    TiledJoin(m, 0, at, next);
    TiledJoin(m, 0, next, end);
    assert Head(m[at]) + [] == Head(m[at]);
  }

  /** The records from `a` to `b`, all free, become one. */
  lemma MergedSpec(m: Block, a: nat, b: nat, end: nat)
    requires Tiled(m, 0, a) && Tiled(m, a, b) && Tiled(m, b, end) && a < b && m[a].inode == 0
    requires Entries(m, a, b) == [] && (b - a) % 4 == 0 && b - a >= HEADER
    ensures Tiled(m, 0, end)
    ensures var m' := m[a := m[a].(entrySize := b - a)];
      && Tiled(m', 0, a) && Tiled(m', a, end) && Tiled(m', 0, end)
      && Entries(m', 0, end) == Entries(m, 0, end)
  {
    var m' := m[a := m[a].(entrySize := b - a)];
    assert RecOk(m'[a]) && Head(m'[a]) == [];
    hide Tiled, Entries, RecOk, Head;
    TiledJoin(m, a, b, end);
    TiledJoin(m, 0, a, end);
    TiledFrame(m, m', 0, a);
    TiledFrame(m, m', b, end);
    TiledStep(m', a, end);
    TiledJoin(m', 0, a, end);
  }

  /** One more free record behind a run of free records. */
  lemma FreeStep(m: Block, a: nat, b: nat, end: nat)
    requires Tiled(m, a, b) && Tiled(m, b, end) && b < end && m[b].inode == 0 && Entries(m, a, b) == []
    ensures var next := b + m[b].entrySize;
      && b + HEADER <= next <= end && m[b].entrySize % 4 == 0
      && Tiled(m, a, next) && Tiled(m, next, end) && Entries(m, a, next) == []
  {
    var next := b + m[b].entrySize;
    TiledOrder(m, next, end);
    TiledEmpty(m, next);
    TiledStep(m, b, next);
    TiledJoin(m, a, b, next);
  }

  lemma SumAligned(a: nat, b: nat)
    requires a % 4 == 0 && b % 4 == 0
    ensures (a + b) % 4 == 0
  {
  }

  lemma LenAligned(r: Rec)
    ensures Align4(DirLen(r)) == DirLen(r)
  {
  }

  lemma InChain(m: Block, at: nat, end: nat)
    requires Tiled(m, at, end) && at < end
    ensures at in m && RecOk(m[at]) && m[at].entrySize > 0
  {
  }

  /** The loop of `merge_dir_entry`: the length of the run of free records that starts at `at`. */
  method FreeRun(m: Block, at: nat, end: nat) returns (total: nat)
    requires Tiled(m, at, end) && at < end && m[at].inode == 0
    ensures at in m && HEADER <= total && m[at].entrySize <= total && at + total <= end && total % 4 == 0
    ensures Tiled(m, at, at + total) && Tiled(m, at + total, end) && Entries(m, at, at + total) == []
    ensures at + total == end || (at + total in m && m[at + total].inode != 0)
  {
    hide *;
    NoRecords(m, at);
    InChain(m, at, end);
    total := 0;
    var hdr := at;
    while hdr < end
      invariant at <= hdr <= end && total == hdr - at && total % 4 == 0
      invariant total == 0 || (total >= HEADER && total >= m[at].entrySize)
      invariant Tiled(m, at, hdr) && Tiled(m, hdr, end) && Entries(m, at, hdr) == []
    {
      InChain(m, hdr, end);
      if m[hdr].inode != 0 { break; }
      FreeStep(m, at, hdr, end);
      SumAligned(total, m[hdr].entrySize);
      total := total + m[hdr].entrySize;
      hdr := hdr + m[hdr].entrySize;
    }
  }

  class Dir {
    const blockSize: nat
    var blocks: seq<Block>            // the cached contents of the directory's direct blocks
    var linkCnt: nat

    /** A directory inode with one allocated, unformatted block. */
    constructor (blockSize: nat, linkCnt: nat, raw: Block)
      ensures this.blockSize == blockSize && this.linkCnt == linkCnt && blocks == [raw]
    {
      this.blockSize := blockSize;
      this.linkCnt := linkCnt;
      this.blocks := [raw];
    }

    ghost predicate Valid()
      reads this
    {
      blockSize >= 1024 && blockSize % 4 == 0 && AllTiled(blocks, blockSize)
    }

    ghost function Contents(): seq<Entry>
      requires Valid()
      reads this
    {
      All(blocks, blockSize)
    }

    /** A chain of records leads from the start of block `b` to `at`. */
    ghost predicate Reaches(b: nat, at: nat)
      reads this
    {
      b < |blocks| && Tiled(blocks[b], 0, at) && Tiled(blocks[b], at, blockSize)
    }

    /** `new_dir_entry` on the record at `at` of block `b`. */
    method NewDirEntry(b: nat, at: nat, ino: nat, name: seq<nat>, kind: nat) returns (r: Option<nat>)
      requires Reaches(b, at) && at < blockSize && |name| < FILE_NAME_LEN
      modifies `blocks
      ensures at in old(blocks)[b] && (r.Some? <==> Fits(old(blocks)[b][at], Align4(HEADER + |name|)))
      ensures ino != 0 ==> (r.Some? <==> RoomFor(old(blocks)[b], at, Entry(name, ino, kind)))
      ensures r.None? ==> blocks == old(blocks)
      ensures r.Some? ==> var (m, p) := Inserted(old(blocks)[b], at, ino, name, kind);
        blocks == old(blocks)[b := m] && r.value == p
    {
      assert at in blocks[b] && RecOk(blocks[b][at]);
      if ino != 0 { FitsIffRoom(blocks[b], at, Entry(name, ino, kind)); }
      var need := Align4(HEADER + |name|);
      var m := blocks[b];
      var dirLen := Align4(DirLen(m[at]));
      LenAligned(m[at]);
      hide Align4, Tiled;
      var new_ := at;
      if m[at].inode != 0 {
        if m[at].entrySize - dirLen < need { return None; }
        new_ := at + dirLen;
        m := Cut(m, at);
      }
      if need > m[new_].entrySize { return None; }
      r := Some(FilledAt(m, new_, name));
      m := Filled(m, new_, ino, name, kind);
      blocks := blocks[b := m];
    }

    /** `merge_dir_entry`: a free record takes in the free records behind it. */
    method MergeDirEntry(b: nat, at: nat)
      requires Reaches(b, at) && at < blockSize
      modifies `blocks
      ensures |blocks| == |old(blocks)| && blocks == old(blocks)[b := blocks[b]]
      ensures Tiled(old(blocks)[b], 0, blockSize) && Tiled(blocks[b], 0, blockSize)
      ensures Entries(blocks[b], 0, blockSize) == Entries(old(blocks)[b], 0, blockSize)
      ensures Settled(blocks[b], at, blockSize) && at in blocks[b] && at in old(blocks)[b]
      ensures Reaches(b, at) && blocks[b][at].entrySize >= old(blocks)[b][at].entrySize
      ensures blocks[b] == old(blocks)[b][at := old(blocks)[b][at].(entrySize := blocks[b][at].entrySize)]
    {
      assert b < |blocks| && Tiled(blocks[b], 0, at) && Tiled(blocks[b], at, blockSize);
      hide *;
      var m := blocks[b];
      ScanStep(m, at, blockSize);
      InChain(m, at, blockSize);
      SettledMeans(m, at, blockSize);
      if m[at].inode != 0 { return; }
      var total := FreeRun(m, at, blockSize);
      MergedSpec(m, at, at + total, blockSize);
      blocks := blocks[b := m[at := m[at].(entrySize := total)]];
      SettledMeans(blocks[b], at, blockSize);
      ReachesMeans(b, at);
    }

    /** The inner loop of `create_dir_entry`: the first record of block `b` with room takes the entry. */
    method CreateIn(b: nat, ino: nat, name: seq<nat>, kind: nat) returns (done: bool, ghost at: nat)
      requires Valid() && b < |blocks| && ino != 0 && |name| < FILE_NAME_LEN
      modifies `blocks
      ensures Valid() && |blocks| == |old(blocks)| && blocks == old(blocks)[b := blocks[b]]
      ensures done <==> !NoRoom(old(blocks)[b], 0, blockSize, Align4(HEADER + |name|))
      ensures !done ==> blocks == old(blocks)
      ensures done ==> AddedOne(Entries(old(blocks)[b], 0, blockSize), Entries(blocks[b], 0, blockSize),
                                Entry(name, ino, kind))
      ensures done ==> FirstRoom(old(blocks)[b], at, blockSize, Align4(HEADER + |name|))
      ensures done ==> Settled(blocks[b], Inserted(old(blocks)[b], at, ino, name, kind).1, blockSize)
    {
      ghost var need := Align4(HEADER + |name|);
      var m := blocks[b];
      assert Tiled(m, 0, blockSize);
      assert AllTiled(blocks, blockSize);
      assert blockSize > 0;
      hide *;
      var dir := 0;
      at := 0;
      ScanStart(m, need);
      while dir < blockSize
        invariant dir <= blockSize && Tiled(m, 0, dir) && Tiled(m, dir, blockSize)
        invariant NoRoom(m, 0, dir, need) && blocks == old(blocks)
      {
        ScanStep(m, dir, blockSize);
        InChain(m, dir, blockSize);
        ReachesMeans(b, dir);
        var r := NewDirEntry(b, dir, ino, name, kind);
        if r.Some? {
          InsertedSpec(m, dir, blockSize, ino, name, kind);
          InsertedAdds(m, dir, blockSize, ino, name, kind);
          ReachesMeans(b, r.value);
          MergeDirEntry(b, r.value);
          RoomHere(m, dir, blockSize, need);
          FirstRoomMeans(m, dir, blockSize, need);
          assert blocks == old(blocks)[b := blocks[b]];
          AllSplit(old(blocks), b, blocks[b], blockSize);
          ValidMeans();
          return true, dir;
        }
        NoRoomStep(m, dir, blockSize, need);
        dir := dir + m[dir].entrySize;
      }
      ValidMeans();
      return false, 0;
    }

    /**
     `create_dir_entry`: a block is appended exactly when no record of any block can be made to hold
     the entry as well. `raw` is what the freshly allocated block's buffer happens to hold.
     */
    method CreateDirEntry(ino: nat, name: seq<nat>, kind: nat, raw: Block)
      requires Valid() && ino != 0 && |name| < FILE_NAME_LEN
      requires |blocks| < N_DIRECT_BLOCK || SomeRoom(blocks, blockSize, Entry(name, ino, kind))
      modifies `blocks
      ensures Valid() && AddedOne(old(Contents()), Contents(), Entry(name, ino, kind))
      ensures |blocks| == |old(blocks)| + (if SomeRoom(old(blocks), blockSize, Entry(name, ino, kind)) then 0 else 1)
    {
      FullMeans(blocks, blockSize, Entry(name, ino, kind));
      ghost var bs: seq<Block>, need, e := blocks, Align4(HEADER + |name|), Entry(name, ino, kind);
      var size := blockSize;
      ValidMeans();
      hide All, Tiled, Entries, NoRoom, AddedOne, Align4, SomeRoom, RoomFor;
      var b := 0;
      while b < |blocks|
        invariant b <= |blocks| && blocks == bs && Valid() && forall i: nat :: i < b ==> NoRoom(bs[i], 0, size, need)
      {
        var done, _ := CreateIn(b, ino, name, kind);
        if done {
          AddedInBlock(bs, b, blocks[b], size, e);
          return;
        }
        b := b + 1;
      }
      FreshSpec(raw, size);
      AppendFresh(bs, Fresh(raw, size), size);
      blocks := blocks + [Fresh(raw, size)];
      FreshRoom(raw, size, name);
      var _ := NewDirEntry(b, 0, ino, name, kind);
      InsertedAdds(Fresh(raw, size), 0, size, ino, name, kind);
      AddedInBlock(bs + [Fresh(raw, size)], |bs|, blocks[|bs|], size, e);
    }

    /** `find_entry_disk`. */
    method FindEntryDisk(name: seq<nat>) returns (r: Option<Entry>)
      requires Valid()
      ensures r == Lookup(Contents(), name)
    {
      ValidMeans();
      hide All, Tiled, Entries, Lookup, Head;
      AllPrefix(blocks, 0, blockSize, name);
      for b := 0 to |blocks|
        invariant AllTiled(blocks[..b], blockSize) && Lookup(All(blocks[..b], blockSize), name).None?
      {
        var m := blocks[b];
        var at := FindIn(m, blockSize, name);
        AllPrefix(blocks, b, blockSize, name);
        if at.Some? {
          FoundIn(m, at.value, blockSize, name);
          return Some(Entry(m[at.value].name, m[at.value].inode, m[at.value].kind));
        }
      }
      assert blocks[..|blocks|] == blocks;
      return None;
    }

    /** `remove_from_parent`: the first live record with the name is freed and merged with what follows. */
    method RemoveFromParent(name: seq<nat>) returns (ghost freed: Option<(nat, nat)>)
      requires Valid()
      modifies `blocks
      ensures Valid() && |blocks| == |old(blocks)| && Contents() == Without(old(Contents()), name)
      ensures freed.None? ==> blocks == old(blocks)
      ensures freed.Some? <==> Lookup(old(Contents()), name).Some?
      ensures freed.Some? ==> var (b, at) := freed.value;
        && b < |blocks| && at in blocks[b] && blocks[b][at].inode == 0 && blocks[b][at].name == name
        && Settled(blocks[b], at, blockSize) && OnChain(blocks[b], at, blockSize)
        && blocks[b][at].entrySize >= Align4(HEADER + |name|)
    {
      ghost var bs, size := blocks, blockSize;
      ValidMeans();
      hide All, Tiled, Entries, Lookup, Without, Head;
      AllPrefix(blocks, 0, blockSize, name);
      var b := 0;
      while b < |blocks|
        invariant b <= |blocks| && blocks == bs && Valid()
        invariant AllTiled(bs[..b], size) && Lookup(All(bs[..b], size), name).None?
      {
        var m := blocks[b];
        var at := FindIn(m, blockSize, name);
        if at.Some? {
          AllPrefix(blocks, b, blockSize, name);
          FoundIn(m, at.value, blockSize, name);
          ClearedSpec(m, at.value, blockSize);
          LiveSize(m, at.value, blockSize);
          blocks := blocks[b := m[at.value := m[at.value].(inode := 0)]];
          MergeDirEntry(b, at.value);
          assert blocks == bs[b := blocks[b]];
          RemovedInBlock(bs, b, blocks[b], size, name);
          return Some((b, at.value));
        }
        AllPrefix(blocks, b, blockSize, name);
        b := b + 1;
      }
      assert bs[..|bs|] == bs;
      WithoutNone(All(bs, size), name);
      return None;
    }

    /** `make_empty_dir`: whatever the only block holds, it becomes "." and ".." and nothing else. */
    method MakeEmptyDir(self: nat, parent: nat)
      requires blockSize >= 1024 && blockSize % 4 == 0 && |blocks| == 1 && self != 0 && parent != 0
      modifies `blocks
      ensures Valid() && |blocks| == 1
      ensures Contents() == [Entry([DOT], self, FT_DIR), Entry([DOT, DOT], parent, FT_DIR)]
    {
      var raw := blocks[0];
      FreshSpec(raw, blockSize);
      blocks := [Fresh(raw, blockSize)];
      FreshRoom(raw, blockSize, [DOT]);
      var p := NewDirEntry(0, 0, self, [DOT], FT_DIR);
      DotSpec(raw, blockSize, self);
      var _ := NewDirEntry(0, p.value, parent, [DOT, DOT], FT_DIR);
      DotDotSpec(raw, blockSize, self, parent);
      AllOne(blocks[0], blockSize);
      assert blocks == [blocks[0]];
    }

    /** `dir_empty`. */
    method DirEmpty() returns (empty: bool)
      requires Valid() && forall e :: e in Contents() ==> e.name != []
      ensures empty <==> linkCnt == 2 && forall e :: e in Contents() ==> IsDots(e.name)
    {
      if linkCnt != 2 { return false; }
      ghost var size := blockSize;
      ValidMeans();
      hide All, Tiled, Entries, Head;
      ghost var none: seq<nat> := [];
      AllPrefix(blocks, 0, blockSize, none);
      for b := 0 to |blocks|
        invariant AllTiled(blocks[..b], size) && forall e :: e in All(blocks[..b], size) ==> IsDots(e.name)
      {
        AllAt(blocks, b, size);
        AllPrefix(blocks, b, blockSize, none);
        var ok := DotsIn(blocks[b], blockSize);
        if !ok { return false; }
      }
      assert blocks[..|blocks|] == blocks;
      return true;
    }

    lemma ReachesMeans(b: nat, at: nat)
      ensures Reaches(b, at) <==> b < |blocks| && Tiled(blocks[b], 0, at) && Tiled(blocks[b], at, blockSize)
    {
    }

    lemma ValidMeans()
      ensures Valid() <==> blockSize >= 1024 && blockSize % 4 == 0 && AllTiled(blocks, blockSize)
      ensures Valid() ==> Contents() == All(blocks, blockSize)
    {
    }
  }

  lemma ScanStart(m: Block, need: nat)
    ensures Tiled(m, 0, 0) && Entries(m, 0, 0) == [] && NoRoom(m, 0, 0, need)
  {
  }

  lemma NoRoomStep(m: Block, at: nat, end: nat, need: nat)
    requires Tiled(m, 0, at) && Tiled(m, at, end) && at < end && NoRoom(m, 0, at, need) && !Fits(m[at], need)
    ensures var next := at + m[at].entrySize; Tiled(m, 0, next) && NoRoom(m, 0, next, need)
  {
    hide Fits, RecOk, Entries;
    var next := at + m[at].entrySize;
    ScanStep(m, at, end);
    TiledEmpty(m, next);
    TiledStep(m, at, next);
    NoRoomJoin(m, 0, at, next, need);
  }

  lemma RoomHere(m: Block, at: nat, end: nat, need: nat)
    requires Tiled(m, 0, at) && Tiled(m, at, end) && at < end && Tiled(m, 0, end) && Fits(m[at], need)
    ensures !NoRoom(m, 0, end, need)
  {
    hide Fits, RecOk, Entries;
    NoRoomJoin(m, 0, at, end, need);
  }

  lemma InsertedAdds(m: Block, at: nat, end: nat, ino: nat, name: seq<nat>, kind: nat)
    requires Tiled(m, 0, at) && Tiled(m, at, end) && at < end && ino != 0 && Fits(m[at], Align4(HEADER + |name|))
    ensures var (m', r) := Inserted(m, at, ino, name, kind);
      Tiled(m, 0, end) && Tiled(m', 0, end) && AddedOne(Entries(m, 0, end), Entries(m', 0, end), Entry(name, ino, kind))
  {
    InsertedSpec(m, at, end, ino, name, kind);
    ScanStep(m, at, end);
    ghost var pre, post := Before(m, at, end), After(m, at, end);
    var (m', r) := Inserted(m, at, ino, name, kind);
    hide Tiled, Entries, Inserted, Fits, Align4;
    assert AddedAt(Entries(m, 0, end), Entries(m', 0, end), Entry(name, ino, kind), pre, post);
  }

  /** No record of any block has room. */
  ghost predicate Full(bs: seq<Block>, size: nat, need: nat)
    requires AllTiled(bs, size)
  {
    forall i :: 0 <= i < |bs| ==> NoRoom(bs[i], 0, size, need)
  }

  /** Some record of some block can be made to hold the entry as well. */
  ghost predicate SomeRoom(bs: seq<Block>, size: nat, e: Entry) {
    exists b, at: nat :: 0 <= b < |bs| && OnChain(bs[b], at, size) && RoomFor(bs[b], at, e)
  }

  /** The chain of records of the block has one at `at`. */
  ghost predicate OnChain(m: Block, at: nat, size: nat) {
    at < size && Tiled(m, 0, at) && Tiled(m, at, size) && at in m
  }

  lemma {:induction false} NoRoomMeans(m: Block, a: nat, size: nat, e: Entry)
    requires Tiled(m, 0, a) && Tiled(m, a, size) && e.inode != 0
    ensures NoRoom(m, a, size, Needs(e)) <==> forall at: nat :: a <= at && OnChain(m, at, size) ==> !RoomFor(m, at, e)
    decreases size - a
  {
    hide RoomFor, Fits, Align4, Entries;
    TiledOrder(m, a, size);
    if a < size {
      InChain(m, a, size);
      ScanStep(m, a, size);
      FitsIffRoom(m, a, e);
      assert OnChain(m, a, size);
      NoRoomMeans(m, a + m[a].entrySize, size, e);
      forall at: nat | a < at < a + m[a].entrySize ensures !OnChain(m, at, size) {
        if OnChain(m, at, size) { NothingInside(m, 0, a, at, size); }
      }
    }
  }

  /** Two records on a chain do not overlap. */
  lemma {:induction false} NothingInside(m: Block, from: nat, a: nat, at: nat, size: nat)
    requires Tiled(m, from, a) && Tiled(m, from, at) && Tiled(m, a, size) && a < size && a < at
    ensures a + m[a].entrySize <= at
    decreases a - from
  {
    TiledOrder(m, from, a);
    if from < a {
      NothingInside(m, from + m[from].entrySize, a, at, size);
    }
  }

  lemma FullMeans(bs: seq<Block>, size: nat, e: Entry)
    requires AllTiled(bs, size) && e.inode != 0
    ensures Full(bs, size, Needs(e)) <==> !SomeRoom(bs, size, e)
  {
    forall b | 0 <= b < |bs|
      ensures NoRoom(bs[b], 0, size, Needs(e)) <==>
                forall at: nat :: OnChain(bs[b], at, size) ==> !RoomFor(bs[b], at, e)
    {
      NoRecords(bs[b], 0);
      NoRoomMeans(bs[b], 0, size, e);
    }
  }

  /** A block with one free record over all of it. */
  function Fresh(raw: Block, size: nat): Block { raw[0 := Stale(raw, 0, size)] }

  lemma FreshSpec(raw: Block, size: nat)
    requires size >= 1024 && size % 4 == 0
    ensures Tiled(Fresh(raw, size), 0, size) && Entries(Fresh(raw, size), 0, size) == []
  {
    var m := Fresh(raw, size);
    TiledEmpty(m, size);
    TiledStep(m, 0, size);
  }

  /** Every name that is short enough fits into an empty block. */
  lemma FreshRoom(raw: Block, size: nat, name: seq<nat>)
    requires size >= 1024 && size % 4 == 0 && |name| < FILE_NAME_LEN
    ensures Fits(Fresh(raw, size)[0], Align4(HEADER + |name|)) && Tiled(Fresh(raw, size), 0, 0)
  {
    AlignSpec(HEADER + |name|);
  }

  lemma AppendFresh(bs: seq<Block>, m: Block, size: nat)
    requires AllTiled(bs, size) && Tiled(m, 0, size) && Entries(m, 0, size) == []
    ensures AllTiled(bs + [m], size) && All(bs + [m], size) == All(bs, size)
  {
    hide Tiled, Entries, All;
    AllOne(m, size);
    AllJoin(bs, [m], size);
  }

  lemma AddedInBlock(bs: seq<Block>, b: nat, m: Block, size: nat, e: Entry)
    requires AllTiled(bs, size) && b < |bs| && Tiled(m, 0, size)
    requires AddedOne(Entries(bs[b], 0, size), Entries(m, 0, size), e)
    ensures AllTiled(bs[b := m], size) && AddedOne(All(bs, size), All(bs[b := m], size), e)
  {
    hide Tiled, Entries, All;
    AllSplit(bs, b, m, size);
    AllSplit(bs, b, bs[b], size);
    assert bs[b := bs[b]] == bs;
    AddedWithin(All(bs[..b], size), Entries(bs[b], 0, size), Entries(m, 0, size), All(bs[b + 1..], size), e);
  }

  // ------------------------------------------------------------- searching

  /** The scan for a name inside one block. */
  method FindIn(m: Block, size: nat, name: seq<nat>) returns (r: Option<nat>)
    requires Tiled(m, 0, size)
    ensures r.None? ==> Lookup(Entries(m, 0, size), name).None?
    ensures r.Some? ==> var at := r.value;
      && at < size && Tiled(m, 0, at) && Tiled(m, at, size) && m[at].inode != 0 && m[at].name == name
      && Lookup(Entries(m, 0, at), name).None?
  {
    hide *;
    ScanStart(m, 0);
    LookupNil(name);
    var at := 0;
    while at < size
      invariant at <= size && Tiled(m, 0, at) && Tiled(m, at, size) && Lookup(Entries(m, 0, at), name).None?
    {
      InChain(m, at, size);
      ScanStep(m, at, size);
      if m[at].inode != 0 && |m[at].name| == |name| && m[at].name == name { return Some(at); }
      LookupJoin(Entries(m, 0, at), Head(m[at]), name);
      LookupHead(m[at], name);
      at := at + m[at].entrySize;
    }
    return None;
  }

  lemma LiveSize(m: Block, at: nat, end: nat)
    requires Tiled(m, at, end) && at < end && m[at].inode != 0
    ensures m[at].entrySize >= Align4(HEADER + |m[at].name|)
  {
  }

  lemma LiveHead(r: Rec)
    ensures r.inode != 0 ==> Head(r) == [Entry(r.name, r.inode, r.kind)]
  {
  }

  lemma LookupHead(r: Rec, name: seq<nat>)
    ensures Lookup(Head(r), name) ==
      if r.inode != 0 && r.name == name then Some(Entry(r.name, r.inode, r.kind)) else None
  {
  }

  /** The record that the scan stops at is the first with the name. */
  lemma FoundIn(m: Block, at: nat, size: nat, name: seq<nat>)
    requires Tiled(m, 0, at) && Tiled(m, at, size) && at < size && m[at].inode != 0 && m[at].name == name
    requires Lookup(Entries(m, 0, at), name).None?
    ensures at in m && Tiled(m, 0, size) && Tiled(m, at + m[at].entrySize, size)
    ensures Lookup(Entries(m, 0, size), name) == Some(Entry(name, m[at].inode, m[at].kind))
    ensures Without(Entries(m, 0, size), name) == Entries(m, 0, at) + Entries(m, at + m[at].entrySize, size)
  {
    hide *;
    InChain(m, at, size);
    ScanStep(m, at, size);
    LiveHead(m[at]);
    ghost var pre, e, post :=
      Entries(m, 0, at), Entry(name, m[at].inode, m[at].kind), Entries(m, at + m[at].entrySize, size);
    assert pre + [e] + post == pre + ([e] + post);
    LookupJoin(pre, [e] + post, name);
    WithoutJoin(pre, [e] + post, name);
    WithoutCons(e, post, name);
  }

  lemma NoBlocks(bs: seq<Block>, size: nat, name: seq<nat>)
    ensures AllTiled(bs[..0], size) && All(bs[..0], size) == [] && Lookup([], name).None?
  {
  }

  /** Extending the searched blocks by one. */
  lemma AllPrefix(bs: seq<Block>, b: nat, size: nat, name: seq<nat>)
    requires AllTiled(bs, size) && b <= |bs|
    ensures AllTiled(bs[..b], size) && (b == 0 ==> All(bs[..b], size) == [] && Lookup(All(bs[..b], size), name).None?)
    ensures b < |bs| ==>
              AllTiled(bs[..b + 1], size) && All(bs[..b + 1], size) == All(bs[..b], size) + Entries(bs[b], 0, size)
    ensures b < |bs| && Lookup(All(bs[..b], size), name).None? ==>
      && Lookup(All(bs[..b + 1], size), name) == Lookup(Entries(bs[b], 0, size), name)
      && (Lookup(Entries(bs[b], 0, size), name).Some? ==>
          Lookup(All(bs, size), name) == Lookup(Entries(bs[b], 0, size), name))
  {
    hide Tiled, Entries, All, Lookup;
    NoBlocks(bs, size, name);
    if b < |bs| {
      AllOne(bs[b], size);
      AllJoin(bs[..b], [bs[b]], size);
      assert bs[..b + 1] == bs[..b] + [bs[b]];
      LookupJoin(All(bs[..b], size), Entries(bs[b], 0, size), name);
      AllJoin(bs[..b + 1], bs[b + 1..], size);
      assert bs == bs[..b + 1] + bs[b + 1..];
      LookupJoin(All(bs[..b + 1], size), All(bs[b + 1..], size), name);
    }
  }

  // -------------------------------------------------------------- removing

  /** A record marked free: the chain stays, one entry goes. */
  lemma ClearedSpec(m: Block, at: nat, size: nat)
    requires Tiled(m, 0, at) && Tiled(m, at, size) && at < size
    ensures Tiled(m, at + m[at].entrySize, size)
    ensures var m' := m[at := m[at].(inode := 0)];
      && Tiled(m', 0, at) && Tiled(m', at, size) && Tiled(m', 0, size)
      && Entries(m', 0, size) == Entries(m, 0, at) + Entries(m, at + m[at].entrySize, size)
  {
    var m' := m[at := m[at].(inode := 0)];
    var next := at + m[at].entrySize;
    assert RecOk(m'[at]) && Tiled(m, next, size) && next > at && Head(m'[at]) == [];
    hide Tiled, Entries, RecOk, Head;
    TiledFrame(m, m', 0, at);
    TiledFrame(m, m', next, size);
    TiledStep(m', at, size);
    TiledJoin(m', 0, at, size);
    assert [] + Entries(m, next, size) == Entries(m, next, size);
  }

  lemma RemovedInBlock(bs: seq<Block>, b: nat, m: Block, size: nat, name: seq<nat>)
    requires AllTiled(bs, size) && b < |bs| && Tiled(m, 0, size)
    requires AllTiled(bs[..b], size) && Lookup(All(bs[..b], size), name).None?
    requires Lookup(Entries(bs[b], 0, size), name).Some?
    requires Entries(m, 0, size) == Without(Entries(bs[b], 0, size), name)
    ensures AllTiled(bs[b := m], size) && All(bs[b := m], size) == Without(All(bs, size), name)
  {
    assert Tiled(bs[b], 0, size);
    hide *;
    AllSplit(bs, b, m, size);
    AllSplit(bs, b, bs[b], size);
    assert bs[b := bs[b]] == bs;
    WithoutMiddle(All(bs[..b], size), Entries(bs[b], 0, size), All(bs[b + 1..], size), name);
  }

  // ------------------------------------------------------------ "." and ".."

  predicate IsDots(name: seq<nat>) { name == [DOT] || name == [DOT, DOT] }

  lemma DotSpec(raw: Block, size: nat, self: nat)
    requires size >= 1024 && size % 4 == 0 && self != 0 && Fits(Fresh(raw, size)[0], Align4(HEADER + 1))
    ensures var (m, p) := Inserted(Fresh(raw, size), 0, self, [DOT], FT_DIR);
      && p == 12 && 0 in m && m[0] == Rec(self, 12, FT_DIR, [DOT])
      && p in m && m[p].inode == 0 && m[p].entrySize == size - 12 && RecOk(m[p])
      && Tiled(m, 0, p) && Tiled(m, p, size) && Fits(m[p], Align4(HEADER + 2))
  {
    var (m, p) := Inserted(Fresh(raw, size), 0, self, [DOT], FT_DIR);
    TiledEmpty(m, size);
    TiledStep(m, p, size);
    TiledEmpty(m, p);
    TiledStep(m, 0, p);
  }

  lemma DotDotSpec(raw: Block, size: nat, self: nat, parent: nat)
    requires size >= 1024 && size % 4 == 0 && self != 0 && parent != 0 && Fits(Fresh(raw, size)[0], Align4(HEADER + 1))
    ensures var (m, p) := Inserted(Fresh(raw, size), 0, self, [DOT], FT_DIR);
      && p in m && RecOk(m[p]) && Fits(m[p], Align4(HEADER + 2))
      && var m2 := Inserted(m, p, parent, [DOT, DOT], FT_DIR).0;
      && Tiled(m2, 0, size)
      && Entries(m2, 0, size) == [Entry([DOT], self, FT_DIR), Entry([DOT, DOT], parent, FT_DIR)]
  {
    DotSpec(raw, size, self);
    var (m, p) := Inserted(Fresh(raw, size), 0, self, [DOT], FT_DIR);
    var m2 := Inserted(m, p, parent, [DOT, DOT], FT_DIR).0;
    assert m2[0] == m[0] && m2[12] == Rec(parent, 12, FT_DIR, [DOT, DOT]);
    assert m2[24].inode == 0 && m2[24].entrySize == size - 24;
    hide Inserted, Align4;
    TiledEmpty(m2, size);
    NoRecords(m2, size);
    TiledStep(m2, 24, size);
    TiledStep(m2, 12, size);
    TiledStep(m2, 0, size);
  }

  /** Whether every live record of a block is "." or "..". */
  method DotsIn(m: Block, size: nat) returns (ok: bool)
    requires Tiled(m, 0, size) && forall e :: e in Entries(m, 0, size) ==> e.name != []
    ensures ok <==> forall e :: e in Entries(m, 0, size) ==> IsDots(e.name)
  {
    hide Tiled, Entries, RecOk;
    ScanStart(m, 0);
    var at := 0;
    while at < size
      invariant at <= size && Tiled(m, 0, at) && Tiled(m, at, size)
      invariant forall e :: e in Entries(m, 0, at) ==> IsDots(e.name)
    {
      InChain(m, at, size);
      ScanStep(m, at, size);
      if m[at].inode != 0 {
        ghost var e := Entry(m[at].name, m[at].inode, m[at].kind);
        assert Head(m[at]) == [e] && e in Entries(m, 0, size);
        if m[at].name[0] != DOT { return false; }
        if |m[at].name| != 1 && !(|m[at].name| == 2 && m[at].name[1] == DOT) { return false; }
      }
      at := at + m[at].entrySize;
    }
    return true;
  }

  lemma AllAt(bs: seq<Block>, b: nat, size: nat)
    requires AllTiled(bs, size) && b < |bs|
    ensures forall e :: e in Entries(bs[b], 0, size) ==> e in All(bs, size)
  {
    hide Tiled, Entries, All;
    AllSplit(bs, b, bs[b], size);
    assert bs[b := bs[b]] == bs;
  }

  // ------------------------------------------------------ removing and creating

  /**
   A removed entry makes room: an entry whose name is no longer than the removed one takes no new
   block, even in a directory that was full.
   */
  method RemoveThenCreate(d: Dir, name: seq<nat>, ino: nat, newName: seq<nat>, kind: nat, raw: Block)
    requires d.Valid() && Lookup(d.Contents(), name).Some?
    requires ino != 0 && |newName| <= |name| && |newName| < FILE_NAME_LEN
    modifies d`blocks
    ensures d.Valid() && |d.blocks| == |old(d.blocks)|
    ensures AddedOne(Without(old(d.Contents()), name), d.Contents(), Entry(newName, ino, kind))
  {
    hide Settled, AllTiled, All, Tiled, Lookup, Without, AddedOne, Align4, RoomFor;
    ghost var freed := d.RemoveFromParent(name);
    ghost var e := Entry(newName, ino, kind);
    ghost var (b, at) := freed.value;
    AlignOrder(HEADER + |newName|, HEADER + |name|);
    FreedRoom(d.blocks[b], at, d.blockSize, e);
    assert SomeRoom(d.blocks, d.blockSize, e);
    d.CreateDirEntry(ino, newName, kind, raw);
  }

  lemma FreedRoom(m: Block, at: nat, size: nat, e: Entry)
    requires OnChain(m, at, size) && m[at].inode == 0 && m[at].entrySize >= Needs(e) && e.inode != 0
    ensures RoomFor(m, at, e)
  {
    InChain(m, at, size);
    FitsIffRoom(m, at, e);
  }

  lemma AlignOrder(a: nat, b: nat)
    requires a <= b
    ensures Align4(a) <= Align4(b)
  {
  }
}
