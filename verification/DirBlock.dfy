/**
 Directory blocks of ext2 (kernel/fs/ext2/dir.c): records chained by their `entrySize`
 inside one block, split, merged and removed in place. A block is the map from the offset
 of a record header to its fields; offsets that are no longer headers may keep old fields.
 */
module DirBlock {

  /** `ext2_dir_t`. A record with inode 0 is free. */
  datatype Rec = Rec(inode: nat, entrySize: nat, kind: nat, name: seq<nat>)

  /** What a live record says: its name, inode and type. */
  datatype Entry = Entry(name: seq<nat>, inode: nat, kind: nat)

  const HEADER: nat := 8               // sizeof(ext2_dir_t)
  const FILE_NAME_LEN: nat := 128

  type Block = map<nat, Rec>

  function Align4(n: nat): nat { (n + 3) / 4 * 4 }

  lemma AlignSpec(n: nat)
    ensures Align4(n) % 4 == 0 && n <= Align4(n) < n + 4
  {
  }

  /** `dir_len`: the space a record needs for its header and name. */
  function DirLen(r: Rec): nat { Align4(HEADER + |r.name|) }

  predicate RecOk(r: Rec) {
    r.entrySize >= HEADER && r.entrySize % 4 == 0 && (r.inode != 0 ==> DirLen(r) <= r.entrySize)
  }

  /** From `a` on, the records follow each other and end exactly at `b`. */
  predicate Tiled(m: Block, a: nat, b: nat)
    decreases b - a
  {
    a == b || (a < b && a in m && RecOk(m[a]) && a + m[a].entrySize <= b && Tiled(m, a + m[a].entrySize, b))
  }

  /** The live records between `a` and `b`, in order. */
  function Entries(m: Block, a: nat, b: nat): seq<Entry>
    requires Tiled(m, a, b)
    decreases b - a
  {
    if a == b then []
    else Head(m[a]) + Entries(m, a + m[a].entrySize, b)
  }

  ghost predicate SameBetween(m: Block, m': Block, a: nat, b: nat) {
    forall k :: a <= k < b ==> (k in m <==> k in m') && (k in m ==> m[k] == m'[k])
  }

  lemma {:induction false} TiledFrame(m: Block, m': Block, a: nat, b: nat)
    requires Tiled(m, a, b) && SameBetween(m, m', a, b)
    ensures Tiled(m', a, b) && Entries(m', a, b) == Entries(m, a, b)
    decreases b - a
  {
    if a < b { TiledFrame(m, m', a + m[a].entrySize, b); }
  }

  function Head(r: Rec): seq<Entry> { if r.inode == 0 then [] else [Entry(r.name, r.inode, r.kind)] }

  lemma {:induction false} TiledJoin(m: Block, a: nat, b: nat, c: nat)
    requires Tiled(m, a, b) && Tiled(m, b, c)
    ensures a <= b <= c && Tiled(m, a, c) && Entries(m, a, c) == Entries(m, a, b) + Entries(m, b, c)
    decreases b - a
  {
    hide Tiled, Entries, Head, RecOk;
    TiledOrder(m, a, b);
    TiledOrder(m, b, c);
    if a < b {
      FirstRecord(m, a, b);
      var a' := a + m[a].entrySize;
      TiledJoin(m, a', b, c);
      TiledStep(m, a, c);
      assert Head(m[a]) + (Entries(m, a', b) + Entries(m, b, c)) == Head(m[a]) + Entries(m, a', b) + Entries(m, b, c);
    } else {
      NoRecords(m, a);
      assert [] + Entries(m, b, c) == Entries(m, b, c);
    }
  }

  lemma FirstRecord(m: Block, a: nat, b: nat)
    requires Tiled(m, a, b) && a < b
    ensures a in m && RecOk(m[a]) && m[a].entrySize > 0 && Tiled(m, a + m[a].entrySize, b)
    ensures Entries(m, a, b) == Head(m[a]) + Entries(m, a + m[a].entrySize, b)
  {
  }

  lemma NoRecords(m: Block, a: nat)
    ensures Tiled(m, a, a) && Entries(m, a, a) == []
  {
  }

  lemma TiledOrder(m: Block, a: nat, b: nat)
    requires Tiled(m, a, b)
    ensures a <= b
  {
  }

  /** One record followed by a tiled rest. */
  lemma TiledStep(m: Block, a: nat, b: nat)
    requires a in m && RecOk(m[a]) && Tiled(m, a + m[a].entrySize, b)
    ensures Tiled(m, a, b) && a < b
    ensures Entries(m, a, b) == Head(m[a]) + Entries(m, a + m[a].entrySize, b)
  {
    TiledOrder(m, a + m[a].entrySize, b);
  }

  // ----------------------------------------------------------- new_dir_entry

  /** Whether a record has room for another one that needs `need` bytes. */
  predicate Fits(r: Rec, need: nat) {
    if r.inode != 0 then r.entrySize >= DirLen(r) + need else r.entrySize >= need
  }

  /** The block after lines 141-152: the space at `at` takes the entry; a large enough rest becomes a free record. */
  function Filled(m: Block, at: nat, ino: nat, name: seq<nat>, kind: nat): Block
    requires at in m && m[at].entrySize >= Align4(HEADER + |name|)
  {
    var need := Align4(HEADER + |name|);
    var remain := m[at].entrySize - need;
    if remain > Align4(HEADER + 1) then
      m[at := Rec(ino, need, kind, name)][at + need := Stale(m, at + need, remain)]
    else m[at := Rec(ino, m[at].entrySize, kind, name)]
  }

  /** A header of which only the inode and size have been set. */
  function Stale(m: Block, at: nat, size: nat): Rec {
    if at in m then Rec(0, size, m[at].kind, m[at].name) else Rec(0, size, 0, [])
  }

  /** The pointer that `new_dir_entry` returns: the free rest, or the new record itself. */
  function FilledAt(m: Block, at: nat, name: seq<nat>): nat
    requires at in m && m[at].entrySize >= Align4(HEADER + |name|)
  {
    var need := Align4(HEADER + |name|);
    if m[at].entrySize - need > Align4(HEADER + 1) then at + need else at
  }

  lemma FilledSpec(m: Block, at: nat, end: nat, ino: nat, name: seq<nat>, kind: nat)
    requires at in m && m[at].entrySize >= Align4(HEADER + |name|) && m[at].entrySize % 4 == 0 && ino != 0
    requires Tiled(m, at + m[at].entrySize, end)
    ensures var m', r := Filled(m, at, ino, name, kind), FilledAt(m, at, name);
      && Tiled(m', at, end) && Tiled(m', at, r) && Tiled(m', r, end) && at <= r < end
      && Entries(m', at, end) == [Entry(name, ino, kind)] + Entries(m, at + m[at].entrySize, end)
      && OutsideSame(m, m', at, at + m[at].entrySize)
  {
    hide Align4, Tiled, Entries, Filled, FilledAt, RecOk, Stale;
    var next := at + m[at].entrySize;
    var m', r := Filled(m, at, ino, name, kind), FilledAt(m, at, name);
    FilledRecs(m, at, ino, name, kind);
    TiledFrame(m, m', next, end);
    TiledEmpty(m', r);
    if r != at {
      TiledStep(m', r, end);
      TiledStep(m', at, r);
    }
    TiledStep(m', at, end);
  }

  lemma FilledRecs(m: Block, at: nat, ino: nat, name: seq<nat>, kind: nat)
    requires at in m && m[at].entrySize >= Align4(HEADER + |name|) && m[at].entrySize % 4 == 0 && ino != 0
    ensures var m', r := Filled(m, at, ino, name, kind), FilledAt(m, at, name);
      && at in m' && RecOk(m'[at]) && Head(m'[at]) == [Entry(name, ino, kind)] && r in m' && RecOk(m'[r]) && at <= r
      && (r == at ==> m'[at].entrySize == m[at].entrySize)
      && (r != at ==> at + m'[at].entrySize == r && Head(m'[r]) == [] && r + m'[r].entrySize == at + m[at].entrySize)
      && OutsideSame(m, m', at, at + m[at].entrySize)
  {
    hide Align4;
    AlignSpec(HEADER + |name|);
    AlignSpec(HEADER + 1);
  }

  lemma TiledEmpty(m: Block, a: nat)
    ensures Tiled(m, a, a)
  {
  }

  ghost predicate OutsideSame(m: Block, m': Block, a: nat, b: nat) {
    forall k :: k < a || k >= b ==> (k in m <==> k in m') && (k in m ==> m[k] == m'[k])
  }

  /** Lines 131-137: a live record gives its slack away as a free record behind it. */
  function Cut(m: Block, at: nat): Block
    requires at in m && m[at].entrySize >= DirLen(m[at])
  {
    var len := DirLen(m[at]);
    m[at := m[at].(entrySize := len)][at + len := Stale(m, at + len, m[at].entrySize - len)]
  }

  /** The block after a successful `new_dir_entry` on the record at `at`, and the pointer it returns. */
  function Inserted(m: Block, at: nat, ino: nat, name: seq<nat>, kind: nat): (Block, nat)
    requires at in m && RecOk(m[at]) && Fits(m[at], Align4(HEADER + |name|))
  {
    if m[at].inode != 0 then
      var c := Cut(m, at);
      var new_ := at + DirLen(m[at]);
      (Filled(c, new_, ino, name, kind), FilledAt(c, new_, name))
    else (Filled(m, at, ino, name, kind), FilledAt(m, at, name))
  }

  /** The entries up to and including a record, and those behind it. */
  ghost function Before(m: Block, at: nat, end: nat): seq<Entry>
    requires Tiled(m, 0, at) && Tiled(m, at, end) && at < end
  {
    Entries(m, 0, at) + Head(m[at])
  }

  ghost function After(m: Block, at: nat, end: nat): seq<Entry>
    requires Tiled(m, at, end) && at < end
  {
    Entries(m, at + m[at].entrySize, end)
  }

  lemma CutSpec(m: Block, at: nat, need: nat)
    requires at in m && RecOk(m[at]) && m[at].inode != 0 && Fits(m[at], need)
    ensures var c, len := Cut(m, at), DirLen(m[at]);
      && at in c && RecOk(c[at]) && c[at].entrySize == len && Head(c[at]) == Head(m[at]) && len > 0
      && at + len in c && c[at + len].entrySize == m[at].entrySize - len && c[at + len].entrySize % 4 == 0
      && c[at + len].entrySize >= need && OutsideSame(m, c, at, at + m[at].entrySize + 1)
      && (need > 0 ==> OutsideSame(m, c, at, at + m[at].entrySize))
  {
    hide Align4;
    AlignSpec(HEADER + |m[at].name|);
  }

  /** A successful insertion keeps the tiling and adds exactly one entry, right behind the record it used. */
  lemma InsertedSpec(m: Block, at: nat, end: nat, ino: nat, name: seq<nat>, kind: nat)
    requires Tiled(m, 0, at) && Tiled(m, at, end) && at < end && ino != 0 && Fits(m[at], Align4(HEADER + |name|))
    ensures var (m', r) := Inserted(m, at, ino, name, kind);
      && Tiled(m', 0, r) && Tiled(m', r, end) && r < end && Tiled(m', 0, end)
      && Entries(m', 0, end) == Before(m, at, end) + [Entry(name, ino, kind)] + After(m, at, end)
      && OutsideSame(m, m', at, at + m[at].entrySize)
  {
    assert at in m && RecOk(m[at]) && Tiled(m, at + m[at].entrySize, end);
    hide *;
    if m[at].inode != 0 {
      InsertedLive(m, at, end, ino, name, kind);
    } else {
      InsertedFree(m, at, end, ino, name, kind);
    }
    var (m', r) := Inserted(m, at, ino, name, kind);
    OutsideBelow(m, m', at, at + m[at].entrySize);
    TiledFrame(m, m', 0, at);
    TiledJoin(m', 0, at, end);
    TiledJoin(m', 0, at, r);
    InsertedOrder(m, at, end, Entry(name, ino, kind));
  }

  lemma OutsideBelow(m: Block, m': Block, a: nat, b: nat)
    requires OutsideSame(m, m', a, b)
    ensures SameBetween(m, m', 0, a)
  {
  }

  lemma InsertedOrder(m: Block, at: nat, end: nat, e: Entry)
    requires Tiled(m, 0, at) && Tiled(m, at, end) && at < end
    ensures Entries(m, 0, at) + (Head(m[at]) + ([e] + After(m, at, end))) ==
            Before(m, at, end) + [e] + After(m, at, end)
  {
    hide Entries;
  }

  lemma InsertedFree(m: Block, at: nat, end: nat, ino: nat, name: seq<nat>, kind: nat)
    requires Tiled(m, at, end) && at < end && ino != 0 && m[at].inode == 0 && Fits(m[at], Align4(HEADER + |name|))
    ensures var (m', r) := Inserted(m, at, ino, name, kind);
      && Tiled(m', at, r) && Tiled(m', r, end) && Tiled(m', at, end) && at <= r < end
      && Entries(m', at, end) == Head(m[at]) + ([Entry(name, ino, kind)] + After(m, at, end))
      && OutsideSame(m, m', at, at + m[at].entrySize)
  {
    hide Align4, Entries, Filled, FilledAt;
    FilledSpec(m, at, end, ino, name, kind);
  }

  lemma InsertedLive(m: Block, at: nat, end: nat, ino: nat, name: seq<nat>, kind: nat)
    requires Tiled(m, at, end) && at < end && ino != 0 && m[at].inode != 0 && Fits(m[at], Align4(HEADER + |name|))
    ensures var (m', r) := Inserted(m, at, ino, name, kind);
      && Tiled(m', at, r) && Tiled(m', r, end) && Tiled(m', at, end) && at <= r < end
      && Entries(m', at, end) == Head(m[at]) + ([Entry(name, ino, kind)] + After(m, at, end))
      && OutsideSame(m, m', at, at + m[at].entrySize)
  {
    hide Align4, Fits, RecOk, Entries, DirLen, Filled, FilledAt, Cut;
    var need := Align4(HEADER + |name|);
    var next := at + m[at].entrySize;
    NeedPositive(name);
    CutSpec(m, at, need);
    var c, len := Cut(m, at), DirLen(m[at]);
    var new_ := at + len;
    TiledFrame(m, c, next, end);
    FilledSpec(c, new_, end, ino, name, kind);
    var (m', r) := Inserted(m, at, ino, name, kind);
    assert m'[at] == c[at];
    TiledStep(m', at, end);
    TiledStep(m', at, r);
  }

  // --------------------------------------------------------- what room means

  /** The bytes that a record for the entry takes at least: its header and name, up to a multiple of 4. */
  function Needs(e: Entry): nat { Align4(HEADER + |e.name|) }

  function NeedsAll(es: seq<Entry>): nat {
    if es == [] then 0 else Needs(es[0]) + NeedsAll(es[1..])
  }

  lemma {:induction false} NeedsJoin(a: seq<Entry>, b: seq<Entry>)
    ensures NeedsAll(a + b) == NeedsAll(a) + NeedsAll(b)
  {
    hide Needs;
    if a == [] {
      assert a + b == b;
    } else {
      assert (a + b)[1..] == a[1..] + b;
      NeedsJoin(a[1..], b);
    }
  }

  /** Records cannot be packed more tightly than their entries need. */
  lemma {:induction false} TiledNeeds(m: Block, a: nat, b: nat)
    requires Tiled(m, a, b)
    ensures a + NeedsAll(Entries(m, a, b)) <= b
    decreases b - a
  {
    if a < b {
      var next := a + m[a].entrySize;
      TiledNeeds(m, next, b);
      hide Tiled, Entries, Align4;
      FirstRecord(m, a, b);
      NeedsJoin(Head(m[a]), Entries(m, next, b));
      assert Head(m[a]) != [] ==> Head(m[a])[1..] == [];
    }
  }

  /** A rearranged block: between `a` and `b` its records hold the entries `es`, elsewhere nothing has changed. */
  ghost predicate Holds(m: Block, m': Block, a: nat, b: nat, es: seq<Entry>) {
    OutsideSame(m, m', a, b) && Tiled(m', a, b) && Entries(m', a, b) == es
  }

  /** The bytes of the record at `at` can be made to hold what it holds and behind it the entry `e`. */
  ghost predicate RoomFor(m: Block, at: nat, e: Entry)
    requires at in m
  {
    CanHold(m, at, at + m[at].entrySize, Head(m[at]) + [e])
  }

  ghost predicate CanHold(m: Block, a: nat, b: nat, es: seq<Entry>) {
    exists m' :: Holds(m, m', a, b, es)
  }

  /** The two tests of `new_dir_entry` refuse a record exactly when nothing else could be done with it either. */
  lemma FitsIffRoom(m: Block, at: nat, e: Entry)
    requires at in m && RecOk(m[at]) && e.inode != 0
    ensures Fits(m[at], Needs(e)) <==> RoomFor(m, at, e)
  {
    var next := at + m[at].entrySize;
    if Fits(m[at], Needs(e)) {
      InsertedHolds(m, at, e);
    }
    if RoomFor(m, at, e) {
      var m' :| Holds(m, m', at, next, Head(m[at]) + [e]);
      TiledNeeds(m', at, next);
      NeedsJoin(Head(m[at]), [e]);
      assert [e][1..] == [] && (Head(m[at]) != [] ==> Head(m[at])[1..] == []);
    }
  }

  lemma InsertedHolds(m: Block, at: nat, e: Entry)
    requires at in m && RecOk(m[at]) && e.inode != 0 && Fits(m[at], Needs(e))
    ensures Holds(m, Inserted(m, at, e.inode, e.name, e.kind).0, at, at + m[at].entrySize, Head(m[at]) + [e])
  {
    hide Tiled, Entries, Inserted, RecOk, Align4, Fits, Head;
    var next := at + m[at].entrySize;
    NoRecords(m, next);
    TiledStep(m, at, next);
    if m[at].inode != 0 {
      InsertedLive(m, at, next, e.inode, e.name, e.kind);
    } else {
      InsertedFree(m, at, next, e.inode, e.name, e.kind);
    }
    assert Head(m[at]) + ([e] + []) == Head(m[at]) + [e];
  }

  /** The record at `new_` holds the name with at most 12 bytes to spare; a larger rest is a free record at `r`. */
  ghost predicate Tight(m: Block, new_: nat, r: nat, name: seq<nat>) {
    && new_ in m && m[new_].name == name
    && Align4(HEADER + |name|) <= m[new_].entrySize <= Align4(HEADER + |name|) + 12
    && (r == new_ || (r == new_ + m[new_].entrySize && r in m && m[r].inode == 0 && m[r].entrySize >= 16))
  }

  lemma FilledTight(m: Block, at: nat, ino: nat, name: seq<nat>, kind: nat)
    requires at in m && m[at].entrySize >= Align4(HEADER + |name|) && m[at].entrySize % 4 == 0
    ensures Tight(Filled(m, at, ino, name, kind), at, FilledAt(m, at, name), name)
  {
    AlignSpec(HEADER + |name|);
    assert Align4(HEADER + 1) == 12;
    hide Align4;
  }

  /** No space is given away: neither by the new record nor by the one that it was split from. */
  lemma InsertedTight(m: Block, at: nat, ino: nat, name: seq<nat>, kind: nat)
    requires at in m && RecOk(m[at]) && ino != 0 && Fits(m[at], Align4(HEADER + |name|))
    ensures var (m', r) := Inserted(m, at, ino, name, kind);
      if m[at].inode == 0 then Tight(m', at, r, name)
      else
        && Tight(m', at + DirLen(m[at]), r, name)
        && at in m' && m'[at] == m[at].(entrySize := Align4(HEADER + |m[at].name|))
  {
    hide Align4, Filled, FilledAt, Cut, Tight, OutsideSame;
    NeedPositive(name);
    if m[at].inode == 0 {
      FilledTight(m, at, ino, name, kind);
    } else {
      CutSpec(m, at, Align4(HEADER + |name|));
      CutKeeps(m, at);
      FilledTight(Cut(m, at), at + DirLen(m[at]), ino, name, kind);
      FilledKeeps(Cut(m, at), at + DirLen(m[at]), ino, name, kind, at);
    }
  }

  lemma CutKeeps(m: Block, at: nat)
    requires at in m && RecOk(m[at]) && m[at].inode != 0
    ensures at in Cut(m, at) && Cut(m, at)[at] == m[at].(entrySize := DirLen(m[at])) && DirLen(m[at]) > 0
  {
  }

  lemma FilledKeeps(m: Block, at: nat, ino: nat, name: seq<nat>, kind: nat, k: nat)
    requires at in m && m[at].entrySize >= Align4(HEADER + |name|) && k < at && k in m
    ensures k in Filled(m, at, ino, name, kind) && Filled(m, at, ino, name, kind)[k] == m[k]
  {
  }

  lemma NeedPositive(name: seq<nat>)
    ensures Align4(HEADER + |name|) > 0
  {
  }
}
