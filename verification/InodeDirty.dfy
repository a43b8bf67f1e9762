/**
 Dirty inodes (kernel/fs/writeback.c:238-256 and 310-342, kernel/fs/ext2/inode.c:253-284):
 which groups of fields are pending, the FIFO of dirty inodes, the write-back of an inode into
 the page of its block, and `page_fsync` over both queues.
 */
module InodeDirty {
  import opened Seqs
  import LfQueue
  import PageCache

  type Ino = nat

  /** `enum inode_state`; `OTHER` is any value outside it, as in memory that was never set. */
  datatype State = OLD | NEW | DATA | TIME | DEL | OTHER

  datatype Inode = Inode(state: State, times: nat, data: nat)

  /** The on-disk inode in its cached block. */
  datatype Raw = Raw(times: nat, data: nat, deleted: bool)

  /** The state computed by `mark_inode_dirty`. */
  function Marked(s: State, mark: State): State {
    match s
    case OLD => mark
    case NEW => if mark == DEL then DEL else NEW
    case DATA => if mark == TIME then NEW else if mark == DEL then DEL else DATA
    case TIME => if mark == DATA then NEW else if mark == DEL then DEL else TIME
    case DEL => DEL
    case OTHER => NEW         // the assertion at line 335 assigns instead of comparing
  }

  predicate IsMark(m: State) { m == NEW || m == DATA || m == TIME || m == DEL }

  /** The order in which pending states grow: OLD below TIME and DATA, these below NEW, NEW below DEL. */
  predicate Leq(a: State, b: State) {
    a == b || a == OLD || b == DEL || (b == NEW && (a == DATA || a == TIME))
  }

  /** Marking computes the least upper bound, except that a NEW mark on a partly dirty inode is dropped. */
  lemma MarkedIsJoin(s: State, mark: State, u: State)
    requires s != OTHER && u != OTHER && IsMark(mark)
    ensures (Leq(s, Marked(s, mark)) && Leq(mark, Marked(s, mark))) <==> !(mark == NEW && (s == DATA || s == TIME))
    ensures Leq(s, u) && Leq(mark, u) ==> Leq(Marked(s, mark), u)
  {
    match s
    case OLD => match mark { case NEW => case DATA => case TIME => case DEL => case _ => }
    case _ =>
  }

  /** The state after several marks. */
  function MarkAll(s: State, marks: seq<State>): State {
    if marks == [] then s else Marked(MarkAll(s, marks[..|marks| - 1]), marks[|marks| - 1])
  }

  /**
   From a clean inode on, with `NEW` as the first mark only, the state is the least upper
   bound of all marks: it is above each, and below everything that is above all of them.
   */
  lemma {:induction false} MarksJoin(marks: seq<State>, u: State)
    requires |marks| >= 1 && (forall m :: m in marks ==> IsMark(m))
    requires forall k :: 0 < k < |marks| ==> marks[k] != NEW
    ensures IsMark(MarkAll(OLD, marks)) && forall m :: m in marks ==> Leq(m, MarkAll(OLD, marks))
    ensures u != OTHER && (forall m :: m in marks ==> Leq(m, u)) ==> Leq(MarkAll(OLD, marks), u)
    decreases |marks|
  {
    hide Marked, Leq, MarkAll, IsMark;
    var n := |marks| - 1;
    var front, last := marks[..n], marks[n];
    assert marks == front + [last];
    LastMark(front, last);
    if n == 0 {
      FirstMark(last);
    } else {
      MarksJoin(front, u);
      var s, t := MarkAll(OLD, front), MarkAll(OLD, marks);
      MarkedIsMark(s, last);
      MarkedIsJoin(s, last, if u == OTHER then DEL else u);
      forall m | m in marks ensures Leq(m, t) {
        if m in front { LeqTransitive(m, s, t); }
      }
    }
  }

  lemma LastMark(front: seq<State>, last: State)
    ensures MarkAll(OLD, front + [last]) == Marked(MarkAll(OLD, front), last) && MarkAll(OLD, []) == OLD
  {
    assert (front + [last])[..|front|] == front;
  }

  lemma FirstMark(m: State)
    ensures Marked(OLD, m) == m && Leq(m, m)
  {
  }

  lemma LeqTransitive(a: State, b: State, c: State)
    requires Leq(a, b) && Leq(b, c)
    ensures Leq(a, c)
  {
  }

  lemma MarkedIsMark(s: State, mark: State)
    requires IsMark(s) && IsMark(mark)
    ensures IsMark(Marked(s, mark)) && s != OTHER
  {
  }

  predicate WritesTimes(s: State) { s == TIME || s == NEW }

  predicate WritesData(s: State) { s == DATA || s == NEW }

  /** What is not pending is already on disk. */
  predicate InSync(i: Inode, r: Raw) {
    && (i.state == OLD || i.state == DATA ==> r.times == i.times)
    && (i.state == OLD || i.state == TIME ==> r.data == i.data)
  }

  // ------------------------------------------------------------ the inode block

  /** Words that a raw inode takes in its block. */
  const WORDS: nat := 3

  /** The raw inode of number `ino` in its block; inode numbers begin at 1. */
  function RawAt(d: PageCache.Data, ino: Ino): Raw
    requires 1 <= ino && WORDS * ino <= |d|
  {
    var k := WORDS * (ino - 1);
    Raw(d[k], d[k + 1], d[k + 2] != 0)
  }

  /** The block with another raw inode of number `ino`. */
  function Put(d: PageCache.Data, ino: Ino, r: Raw): (d': PageCache.Data)
    requires 1 <= ino && WORDS * ino <= |d|
    ensures |d'| == |d|
  {
    var k := WORDS * (ino - 1);
    d[k := r.times][k + 1 := r.data][k + 2 := if r.deleted then 1 else 0]
  }

  /** All raw inodes of a block with `n` slots. */
  ghost function Raws(d: PageCache.Data, n: nat): map<Ino, Raw>
    requires |d| == WORDS * n
  {
    map ino: nat | 1 <= ino <= n :: RawAt(d, ino)
  }

  lemma RawsSpec(d: PageCache.Data, n: nat, ino: Ino)
    requires |d| == WORDS * n
    ensures ino in Raws(d, n) <==> 1 <= ino <= n
    ensures 1 <= ino <= n ==> Raws(d, n)[ino] == RawAt(d, ino)
  {
  }

  /** Writing one raw inode changes that one and no other. */
  lemma PutSpec(d: PageCache.Data, n: nat, ino: Ino, r: Raw)
    requires |d| == WORDS * n && 1 <= ino <= n
    ensures Raws(Put(d, ino, r), n) == Raws(d, n)[ino := r]
  {
    forall j: nat | 1 <= j <= n ensures RawAt(Put(d, ino, r), j) == if j == ino then r else RawAt(d, j) { }
  }

  class InodeTable {
    const cache: PageCache.Cache
    const table: PageCache.Sector      // the first block of the inode table
    const slots: nat                   // inodes in that block
    var inodes: map<Ino, Inode>
    const fifo: LfQueue.Queue

    /** The cache is in order and the inode block has its size. */
    ghost predicate Stored()
      reads this, cache, cache.dirty
    {
      && cache.Valid() && fifo != cache.dirty && table % 8 == 0 && table != SUPER
      && {table, SUPER} <= cache.disk.Keys && {table, SUPER} <= cache.content.Keys
      && |cache.content[table]| == WORDS * slots
    }

    /** The raw inodes as a reader of the cache sees them. */
    ghost function Raw(): map<Ino, Raw>
      requires Stored()
      reads this, cache, cache.dirty
    {
      Raws(cache.content[table], slots)
    }

    ghost predicate Valid()
      reads this, cache, cache.dirty, fifo
    {
      && Stored() && fifo.Valid() && 0 !in inodes && fifo.dummy !in inodes && Pending(inodes, fifo.contents)
      && AllInSync(inodes, Raw())
    }

    constructor (cache: PageCache.Cache, table: PageCache.Sector, slots: nat, dummy: Ino)
      requires cache.Valid() && table % 8 == 0 && table != SUPER && SUPER in cache.disk && dummy != 0
      requires table in cache.disk && table in cache.content && |cache.content[table]| == WORDS * slots
      ensures Valid() && inodes == map[] && fresh(fifo) && fifo.contents == [] && fifo.dummy == dummy
      ensures this.cache == cache && this.table == table && this.slots == slots
    {
      this.cache, this.table, this.slots, inodes := cache, table, slots, map[];
      fifo := new LfQueue.Queue(dummy);
    }

    /**
     `inode_cpy`: the inode is read from its block and its access time is new. The state of the slab
     object it is put into was never set; `garbage` is what it holds. An inode whose garbage looks
     like a pending state is not queued, so that its changes would never reach the disk.
     */
    method InodeCpy(ino: Ino, garbage: State, now: nat)
      requires Valid() && 1 <= ino <= slots && ino !in inodes && ino != fifo.dummy
      modifies this`inodes, fifo, cache`list, cache`pages, cache`disk
      ensures Valid() <==> garbage == OLD || garbage == OTHER
      ensures cache.Valid() && cache.content == old(cache.content)
      ensures fifo.contents == old(fifo.contents) + (if garbage == OLD || garbage == OTHER then [ino] else [])
      ensures inodes == old(inodes)[ino := Inode(Marked(garbage, TIME), now, old(Raw())[ino].data)]
    {
      hide Marked, Pending, AllInSync, InSync, Raws, RawAt, PageCache.Cache.Valid, LfQueue.Follows, NoDup;
      var p := cache.ReadSector(table, now);
      var r := RawAt(cache.pages[p].data, ino);
      RawsSpec(cache.content[table], slots, ino);
      LoadKeeps(inodes, fifo.contents, Raw(), ino, garbage, now);
      inodes := inodes[ino := Inode(Marked(garbage, TIME), now, r.data)];
      if garbage == OLD || garbage == OTHER {
        fifo.Put(ino);
      }
    }

    /**
     A change of an inode's fields followed by `mark_inode_dirty`: `TIME` changes the times,
     `DATA` the other fields, `NEW` both, `DEL` neither. Everything stays either on disk or pending,
     exactly unless a `NEW` mark meets one pending field group and the other one has changed.
     */
    method Update(ino: Ino, mark: State, times: nat, data: nat)
      requires Valid() && ino in inodes && IsMark(mark)
      modifies this`inodes, fifo
      ensures Valid() <==> !Loses(old(inodes)[ino], mark, times, data)
      ensures inodes == old(inodes)[ino := Changed(old(inodes)[ino], mark, times, data)]
      ensures fifo.contents == old(fifo.contents) + (if old(inodes)[ino].state in {OLD, OTHER} then [ino] else [])
    {
      hide Changed, Loses, Pending, AllInSync, InSync, IsMark, Raws, PageCache.Cache.Valid, LfQueue.Follows, NoDup;
      ChangeKeeps(inodes, fifo.contents, Raw(), ino, mark, times, data);
      var i := inodes[ino];
      inodes := inodes[ino := Changed(i, mark, times, data)];
      if i.state == OLD || i.state == OTHER {
        fifo.Put(ino);
      }
    }

    /**
     `ext2_write_back` of an inode that has just left the FIFO: its raw inode is changed in the
     page of its block, and that page is marked dirty.
     */
    method WriteBack(ino: Ino, now: nat)
      requires Stored() && ino in inodes && ino in Raw() && IsMark(inodes[ino].state) && InSync(inodes[ino], Raw()[ino])
      modifies this`inodes, cache, cache.dirty
      ensures Stored() && Written(ino, old(inodes), old(Raw()), inodes, Raw())
      ensures cache.content == old(cache.content)[table := cache.content[table]]
    {
      hide PageCache.Cache.Valid, Raws, Put, RawAt;
      var p := cache.ReadSector(table, now);
      var d := cache.pages[p].data;
      RawsSpec(d, slots, ino);
      var i, r := inodes[ino], RawAt(d, ino);
      if i.state == TIME || i.state == NEW {
        r := r.(times := i.times);
      }
      if i.state == DATA || i.state == NEW {
        r := r.(data := i.data);
      }
      if i.state == DEL {
        r := r.(deleted := true);
        inodes := inodes - {ino};
      } else {
        inodes := inodes[ino := i.(state := OLD)];
      }
      PutSpec(d, slots, ino, r);
      cache.WriteAndMark(p, Put(d, ino, r));
    }

    /** `ext2_write_super_block`: only the block of the superblock changes. */
    method WriteSuper(now: nat)
      requires Stored()
      modifies cache, cache.dirty
      ensures Stored() && Raw() == old(Raw())
      ensures SUPER in cache.content && cache.content == old(cache.content)[SUPER := cache.content[SUPER]]
    {
      hide PageCache.Cache.Valid;
      var p := cache.ReadSector(SUPER, now);
      var d: PageCache.Data := *;
      cache.WriteAndMark(p, d);
    }

    /** One round of the loop of `flush_inode`. */
    method FlushOne(node: Ino, now: nat, ghost i0: map<Ino, Inode>, ghost r0: map<Ino, Raw>) returns (next: Ino)
      requires Flushing(node) && node != LfQueue.NULL && FlushedFrom(i0, r0, inodes, Raw())
      modifies this`inodes, cache, cache.dirty, fifo
      ensures Flushing(next) && FlushedFrom(i0, r0, inodes, Raw())
      ensures cache.content == old(cache.content)[table := cache.content[table]]
      ensures |fifo.contents| + (if next == LfQueue.NULL then 0 else 1) < |old(fifo.contents)| + 1
    {
      hide FlushedFrom, LfQueue.Follows, NoDup, PageCache.Cache.Valid, Raws;
      WriteBack(node, now);
      FlushedMore(i0, r0, old(inodes), old(Raw()), inodes, Raw(), node);
      next := NextDirty();
    }

    /**
     `flush_inode`: afterwards the FIFO is empty and the cached inode block has every field of every
     remaining inode. The superblock is written before the first inode.
     */
    method FlushInode(now: nat)
      requires Valid()
      modifies this`inodes, cache, cache.dirty, fifo
      ensures Valid() && fifo.contents == [] && Settled(old(inodes), old(Raw()), inodes, Raw())
      ensures KeptBut({table, SUPER}, old(cache.content), cache.content)
    {
      hide FlushedFrom, KeptBut, LfQueue.Follows, InSync, NoDup, PageCache.Cache.Valid, Raws;
      FlushedNothing(inodes, Raw());
      ghost var changed := {table, SUPER};
      KeptStart(changed, cache.content);
      var node := NextDirty();
      if node != LfQueue.NULL {
        KeptStep(changed, cache.content, cache.content, SUPER);
        WriteSuper(now);
      }
      while node != LfQueue.NULL
        invariant Flushing(node) && FlushedFrom(old(inodes), old(Raw()), inodes, Raw())
        invariant KeptBut({table, SUPER}, old(cache.content), cache.content)
        decreases |fifo.contents| + if node == LfQueue.NULL then 0 else 1
      {
        KeptStep(changed, old(cache.content), cache.content, table);
        node := FlushOne(node, now, old(inodes), old(Raw()));
      }
      FlushedAll(old(inodes), old(Raw()), inodes, Raw());
    }

    /**
     `page_fsync`: both queues are drained, the disk holds the content of every sector, and every
     remaining inode can be read back from its slot on the disk.
     */
    method PageFsync(now: nat)
      requires Valid()
      modifies this`inodes, cache, cache.dirty, fifo
      ensures Valid() && fifo.contents == [] && cache.dirty.contents == [] && cache.disk == cache.content
      ensures Settled(old(inodes), old(Raw()), inodes, Raws(cache.disk[table], slots))
      ensures KeptBut({table, SUPER}, old(cache.content), cache.disk)
    {
      hide Settled, Raws, PageCache.Coherent, PageCache.Represents, PageCache.Listed;
      FlushInode(now);
      cache.FlushPages(now);
    }

    method NextDirty() returns (node: Ino)
      requires fifo.Valid() && Pending(inodes, fifo.contents)
      modifies fifo
      ensures fifo.Valid() && (node == 0 ==> fifo.contents == [])
      ensures node != 0 ==> node in inodes && node !in fifo.contents
      ensures forall i :: i in inodes && IsMark(inodes[i].state) <==> i in fifo.contents || (i == node && node != 0)
      ensures |fifo.contents| + (if node == 0 then 0 else 1) == old(|fifo.contents|)
    {
      if fifo.contents != [] {
        LfQueue.TailNoDup(fifo.dummy, fifo.contents);
        FirstApart(fifo.contents[0], fifo.contents[1..]);
      }
      node := fifo.Get();
    }

    ghost predicate Flushing(node: Ino)
      reads this, cache, cache.dirty, fifo
    {
      && Stored() && fifo.Valid() && 0 !in inodes && fifo.dummy !in inodes && AllInSync(inodes, Raw())
      && (node == 0 ==> fifo.contents == []) && (node != 0 ==> node in inodes && node !in fifo.contents)
      && (forall i :: i in inodes && IsMark(inodes[i].state) <==> i in fifo.contents || (i == node && node != 0))
    }
  }

  const SUPER: PageCache.Sector := 0   // the block of the superblock

  ghost predicate AllInSync(inodes: map<Ino, Inode>, raw: map<Ino, Raw>) {
    forall i :: i in inodes ==> i in raw && InSync(inodes[i], raw[i])
  }

  /** An inode is on the FIFO exactly when something of it is pending. */
  ghost predicate Pending(inodes: map<Ino, Inode>, queue: seq<Ino>) {
    forall i :: i in queue <==> i in inodes && IsMark(inodes[i].state)
  }

  /** A `NEW` mark on one pending field group forgets a change of the other. */
  predicate Loses(i: Inode, mark: State, times: nat, data: nat) {
    mark == NEW && ((i.state == DATA && times != i.times) || (i.state == TIME && data != i.data))
  }

  /** Loading an inode queues it with its new access time pending, unless the leftover state looks pending. */
  lemma LoadKeeps(inodes: map<Ino, Inode>, queue: seq<Ino>, raw: map<Ino, Raw>, ino: Ino, garbage: State, now: nat)
    requires ino in raw && ino !in inodes && Pending(inodes, queue) && AllInSync(inodes, raw)
    ensures var inodes' := inodes[ino := Inode(Marked(garbage, TIME), now, raw[ino].data)];
      if garbage == OLD || garbage == OTHER
      then ino !in queue && Pending(inodes', queue + [ino]) && AllInSync(inodes', raw)
      else !Pending(inodes', queue)
  {
    var inodes' := inodes[ino := Inode(Marked(garbage, TIME), now, raw[ino].data)];
    assert IsMark(inodes'[ino].state) && ino !in queue;
  }

  /** A change followed by its mark keeps the rest in step with the disk. */
  lemma ChangeKeeps(inodes: map<Ino, Inode>, queue: seq<Ino>, raw: map<Ino, Raw>,
                    ino: Ino, mark: State, times: nat, data: nat)
    requires ino in inodes && IsMark(mark) && Pending(inodes, queue) && AllInSync(inodes, raw)
    ensures var i, inodes' := inodes[ino], inodes[ino := Changed(inodes[ino], mark, times, data)];
      && (AllInSync(inodes', raw) <==> !Loses(i, mark, times, data))
      && (if i.state == OLD || i.state == OTHER
          then ino !in queue && Pending(inodes', queue + [ino])
          else Pending(inodes', queue))
  {
    var i := inodes[ino];
    assert IsMark(Marked(i.state, mark));
    assert InSync(Changed(i, mark, times, data), raw[ino]) <==> !Loses(i, mark, times, data);
    var inodes' := inodes[ino := Changed(i, mark, times, data)];
    assert inodes'[ino] == Changed(i, mark, times, data);
  }

  /** What a write-back means: this inode is clean and on its page, or gone; every other is as it was. */
  ghost predicate Written(ino: Ino, before: map<Ino, Inode>, raw: map<Ino, Raw>,
                          after: map<Ino, Inode>, raw': map<Ino, Raw>)
    requires ino in before && ino in raw
  {
    && raw'.Keys == raw.Keys && (forall j :: j in raw && j != ino ==> raw'[j] == raw[j])
    && after - {ino} == before - {ino}
    && (if before[ino].state == DEL
        then ino !in after && raw'[ino] == raw[ino].(deleted := true)
        else
          && ino in after && after[ino] == before[ino].(state := OLD)
          && InSync(after[ino], raw'[ino]) && raw'[ino].deleted == raw[ino].deleted)
  }

  /** How far a flush that started from `i0` and `r0` has come with inode `i`. */
  ghost predicate FlushedAt(i0: map<Ino, Inode>, r0: map<Ino, Raw>, inodes: map<Ino, Inode>, raw: map<Ino, Raw>, i: Ino)
    requires raw.Keys == r0.Keys
  {
    if i !in i0 then i !in inodes && (i in raw ==> raw[i] == r0[i])
    else if i in inodes then
      && i in raw && SameFields(inodes[i], i0[i]) && InSync(inodes[i], raw[i]) && raw[i].deleted == r0[i].deleted
      && (i0[i].state == DEL || i0[i].state == OTHER ==> inodes[i].state == i0[i].state && raw[i] == r0[i])
    else i0[i].state == DEL && i in raw && raw[i] == r0[i].(deleted := true)
  }

  ghost predicate FlushedFrom(i0: map<Ino, Inode>, r0: map<Ino, Raw>, inodes: map<Ino, Inode>, raw: map<Ino, Raw>) {
    raw.Keys == r0.Keys && forall i :: FlushedAt(i0, r0, inodes, raw, i)
  }

  /**
   What a whole flush means: an inode remains unless it was deleted, keeps its fields and is clean
   with these fields in its raw inode, except that one whose state was `OTHER` was never marked and
   stays as it is; deleted inodes are marked so; raw inodes without an inode in memory are untouched.
   */
  ghost predicate Settled(before: map<Ino, Inode>, raw: map<Ino, Raw>,
                          after: map<Ino, Inode>, raw': map<Ino, Raw>)
  {
    && (forall i :: i in after ==>
          i in before && after[i].times == before[i].times && after[i].data == before[i].data)
    && (forall i :: i in before ==> (i in after <==> before[i].state != DEL))
    && raw'.Keys == raw.Keys && (forall i :: i in raw && i !in before ==> raw'[i] == raw[i])
    && (forall i :: i in after && before[i].state != OTHER ==>
          after[i].state == OLD && i in raw && raw'[i] == Raw(after[i].times, after[i].data, raw[i].deleted))
    && (forall i :: i in before && before[i].state == DEL ==> i in raw && raw'[i] == raw[i].(deleted := true))
    && (forall i :: i in after && before[i].state == OTHER ==> after[i] == before[i] && i in raw && raw'[i] == raw[i])
  }

  /** No sector comes or goes, and only those in `changed` have another content. */
  ghost predicate KeptBut(changed: set<PageCache.Sector>, before: map<PageCache.Sector, PageCache.Data>,
                          after: map<PageCache.Sector, PageCache.Data>)
  {
    after.Keys == before.Keys && forall s :: s in before && s !in changed ==> after[s] == before[s]
  }

  lemma KeptStart(changed: set<PageCache.Sector>, content: map<PageCache.Sector, PageCache.Data>)
    ensures KeptBut(changed, content, content)
  {
  }

  lemma KeptStep(changed: set<PageCache.Sector>, before: map<PageCache.Sector, PageCache.Data>,
                 now: map<PageCache.Sector, PageCache.Data>, s: PageCache.Sector)
    requires KeptBut(changed, before, now) && s in changed && s in now
    ensures forall d {:trigger now[s := d]} :: KeptBut(changed, before, now[s := d])
  {
  }

  lemma FlushedNothing(inodes: map<Ino, Inode>, raw: map<Ino, Raw>)
    requires AllInSync(inodes, raw)
    ensures FlushedFrom(inodes, raw, inodes, raw)
  {
  }

  lemma FlushedMore(i0: map<Ino, Inode>, r0: map<Ino, Raw>, inodes: map<Ino, Inode>, raw: map<Ino, Raw>,
                    inodes': map<Ino, Inode>, raw': map<Ino, Raw>, ino: Ino)
    requires FlushedFrom(i0, r0, inodes, raw) && ino in inodes && ino in raw && IsMark(inodes[ino].state)
    requires Written(ino, inodes, raw, inodes', raw')
    ensures FlushedFrom(i0, r0, inodes', raw') && AllInSync(inodes', raw')
    ensures inodes'.Keys <= inodes.Keys && (ino in inodes' ==> !IsMark(inodes'[ino].state))
    ensures forall i :: i != ino ==> (i in inodes <==> i in inodes') && (i in inodes ==> inodes'[i] == inodes[i])
  {
    forall i ensures FlushedAt(i0, r0, inodes', raw', i) {
      assert FlushedAt(i0, r0, inodes, raw, i);
      if i != ino { Untouched(inodes, inodes', ino, i); }
    }
    forall i | i != ino ensures (i in inodes <==> i in inodes') && (i in inodes ==> inodes'[i] == inodes[i]) {
      Untouched(inodes, inodes', ino, i);
    }
    forall i | i in inodes' ensures i in raw' && InSync(inodes'[i], raw'[i]) {
      assert FlushedAt(i0, r0, inodes', raw', i);
    }
  }

  lemma Untouched(inodes: map<Ino, Inode>, inodes': map<Ino, Inode>, ino: Ino, i: Ino)
    requires inodes' - {ino} == inodes - {ino} && i != ino
    ensures (i in inodes <==> i in inodes') && (i in inodes ==> inodes'[i] == inodes[i])
  {
    assert i in inodes' - {ino} <==> i in inodes - {ino};
    assert i in inodes ==> (inodes' - {ino})[i] == (inodes - {ino})[i];
  }

  lemma FlushedAll(i0: map<Ino, Inode>, r0: map<Ino, Raw>, inodes: map<Ino, Inode>, raw: map<Ino, Raw>)
    requires FlushedFrom(i0, r0, inodes, raw) && forall i :: i in inodes ==> !IsMark(inodes[i].state)
    ensures Settled(i0, r0, inodes, raw)
  {
    assert forall i :: i in inodes || i in i0 || i in raw ==> FlushedAt(i0, r0, inodes, raw, i);
  }

  predicate SameFields(a: Inode, b: Inode) {
    a.times == b.times && a.data == b.data && (a.state == b.state || a.state == OLD)
  }

  function Changed(i: Inode, mark: State, times: nat, data: nat): Inode {
    Inode(Marked(i.state, mark), if WritesTimes(mark) then times else i.times,
          if WritesData(mark) then data else i.data)
  }

  /** A NEW mark on an inode with pending data loses the new times. */
  lemma NewMarkLosesTimes(i: Inode, r: Raw, times: nat, data: nat)
    requires i.state == DATA && InSync(i, r) && times != i.times
    ensures !InSync(Changed(i, NEW, times, data), r)
  {
  }

  /**
   From the change of a field to the disk: after a change, its mark and `page_fsync`, the raw inode
   on the disk has the new fields, and a deleted inode is marked so there. On a state that was never
   set, every mark counts as `NEW`, also `DEL`.
   */
  method UpdateAndSync(t: InodeTable, ino: Ino, mark: State, times: nat, data: nat, now: nat)
    requires t.Valid() && ino in t.inodes && IsMark(mark) && !Loses(t.inodes[ino], mark, times, data)
    modifies t`inodes, t.cache, t.cache.dirty, t.fifo
    ensures t.Valid() && t.table in t.cache.disk && |t.cache.disk[t.table]| == WORDS * t.slots && 1 <= ino <= t.slots
    ensures var i, r := old(t.inodes[ino]), RawAt(t.cache.disk[t.table], ino);
      if i.state == DEL || (mark == DEL && i.state != OTHER) then r.deleted
      else
        && r.times == (if WritesTimes(mark) then times else i.times)
        && r.data == (if WritesData(mark) then data else i.data)
  {
    hide InSync, Raws, RawAt, Settled, Changed, Loses, Pending, IsMark, KeptBut,
      PageCache.Cache.Valid, LfQueue.Follows, NoDup;
    ghost var i := t.inodes[ino];
    t.Update(ino, mark, times, data);
    ghost var before, raw := t.inodes, t.Raw();
    t.PageFsync(now);
    SyncedFields(before, raw, t.inodes, Raws(t.cache.disk[t.table], t.slots), ino, i, mark, times, data);
    RawsSpec(t.cache.disk[t.table], t.slots, ino);
  }

  lemma SyncedFields(before: map<Ino, Inode>, raw: map<Ino, Raw>, after: map<Ino, Inode>, raw': map<Ino, Raw>,
                     ino: Ino, i: Inode, mark: State, times: nat, data: nat)
    requires Settled(before, raw, after, raw') && IsMark(mark)
    requires ino in before && before[ino] == Changed(i, mark, times, data)
    ensures ino in raw'
    ensures if i.state == DEL || (mark == DEL && i.state != OTHER) then raw'[ino].deleted
            else
              && raw'[ino].times == (if WritesTimes(mark) then times else i.times)
              && raw'[ino].data == (if WritesData(mark) then data else i.data)
  {
  }
}
