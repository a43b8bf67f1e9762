/**
 A file's bytes spread over pages: block `k` of the file is the page of its `k`-th block id.
 `cells` is the padded file, whole blocks long.
 */
module FileBytes {
  import opened Arith
  import opened Seqs

  type Page = seq<nat>

  /** Where block `k` begins. */
  function BlockStart(bs: nat, k: nat): nat { bs * k }

  lemma StartStep(bs: nat, k: nat)
    ensures BlockStart(bs, k + 1) == BlockStart(bs, k) + bs
  {
  }

  lemma StartOrder(bs: nat, i: nat, j: nat)
    requires i < j
    ensures BlockStart(bs, i) + bs <= BlockStart(bs, j)
  {
    StartStep(bs, i);
    MulMonotone(bs, i + 1, j);
  }

  /** Block `k` of `cells` is the page of `bids[k]`. */
  ghost predicate PageIs(pages: map<nat, Page>, bids: seq<nat>, bs: nat, cells: seq<nat>, k: nat) {
    && k < |bids| && bids[k] in pages && |pages[bids[k]]| == bs && BlockStart(bs, k) + bs <= |cells|
    && pages[bids[k]] == cells[BlockStart(bs, k)..BlockStart(bs, k) + bs]
  }

  ghost predicate Stored(pages: map<nat, Page>, bids: seq<nat>, bs: nat, cells: seq<nat>) {
    bs >= 1 && |cells| == BlockStart(bs, |bids|) && forall k: nat :: k < |bids| ==> PageIs(pages, bids, bs, cells, k)
  }

  /** `memcpy` of `b` to position `at`. */
  function Patch(s: seq<nat>, at: nat, b: seq<nat>): (r: seq<nat>)
    requires at + |b| <= |s|
    ensures |r| == |s|
  {
    s[..at] + b + s[at + |b|..]
  }

  /** A patch inside the window `lo..hi` is a patch of that window; outside it changes nothing. */
  lemma PatchWindow(s: seq<nat>, at: nat, b: seq<nat>, lo: nat, hi: nat)
    requires at + |b| <= |s| && lo <= hi <= |s|
    ensures lo <= at && at + |b| <= hi ==> Patch(s, at, b)[lo..hi] == Patch(s[lo..hi], at - lo, b)
    ensures at + |b| <= lo || hi <= at ==> Patch(s, at, b)[lo..hi] == s[lo..hi]
  {
    if lo <= at && at + |b| <= hi {
      assert s[lo..hi][..at - lo] == s[lo..at];
      assert s[lo..hi][at - lo + |b|..] == s[at + |b|..hi];
    }
  }

  /** Writing into one page is a patch of the padded file; no other block changes. */
  lemma WriteSpec(pages: map<nat, Page>, bids: seq<nat>, bs: nat, cells: seq<nat>, bno: nat, off: nat, b: seq<nat>)
    requires Stored(pages, bids, bs, cells) && NoDup(bids) && bno < |bids| && off + |b| <= bs
    ensures PageIs(pages, bids, bs, cells, bno) && BlockStart(bs, bno) + off + |b| <= |cells|
    ensures Stored(pages[bids[bno] := Patch(pages[bids[bno]], off, b)], bids, bs,
                   Patch(cells, BlockStart(bs, bno) + off, b))
  {
    assert PageIs(pages, bids, bs, cells, bno);
    var pages' := pages[bids[bno] := Patch(pages[bids[bno]], off, b)];
    var cells' := Patch(cells, BlockStart(bs, bno) + off, b);
    forall k: nat | k < |bids| ensures PageIs(pages', bids, bs, cells', k) {
      assert PageIs(pages, bids, bs, cells, k);
      BlockAfterWrite(pages, bids, bs, cells, bno, off, b, k);
    }
  }

  lemma BlockAfterWrite(pages: map<nat, Page>, bids: seq<nat>, bs: nat, cells: seq<nat>, bno: nat, off: nat,
                        b: seq<nat>, k: nat)
    requires PageIs(pages, bids, bs, cells, bno) && PageIs(pages, bids, bs, cells, k) && NoDup(bids) && off + |b| <= bs
    ensures PageIs(pages[bids[bno] := Patch(pages[bids[bno]], off, b)], bids, bs,
                   Patch(cells, BlockStart(bs, bno) + off, b), k)
  {
    hide BlockStart, Patch;
    PatchWindow(cells, BlockStart(bs, bno) + off, b, BlockStart(bs, k), BlockStart(bs, k) + bs);
    if k < bno {
      StartOrder(bs, k, bno);
      assert bids[k] != bids[bno];
    } else if k > bno {
      StartOrder(bs, bno, k);
      assert bids[k] != bids[bno];
    }
  }

  /** Another block at the end. */
  lemma GrowSpec(pages: map<nat, Page>, bids: seq<nat>, bs: nat, cells: seq<nat>, bid: nat)
    requires Stored(pages, bids, bs, cells) && bid in pages && |pages[bid]| == bs
    ensures Stored(pages, bids + [bid], bs, cells + pages[bid])
  {
    var cells' := cells + pages[bid];
    StartStep(bs, |bids|);
    forall k: nat | k < |bids| + 1 ensures PageIs(pages, bids + [bid], bs, cells', k) {
      if k < |bids| {
        assert PageIs(pages, bids, bs, cells, k);
        assert cells'[BlockStart(bs, k)..BlockStart(bs, k) + bs] == cells[BlockStart(bs, k)..BlockStart(bs, k) + bs];
      }
    }
  }

  lemma SliceOfSlice(s: seq<nat>, lo: nat, hi: nat, a: nat, b: nat)
    requires lo <= hi <= |s| && a <= b <= hi - lo
    ensures s[lo..hi][a..b] == s[lo + a..lo + b]
  {
    var t := s[lo..hi];
    forall i | 0 <= i < b - a ensures t[a..b][i] == s[lo + a..lo + b][i] {
      assert t[a + i] == s[lo + (a + i)];
    }
  }

  /** Reading inside one page reads the padded file. */
  lemma ReadSpec(pages: map<nat, Page>, bids: seq<nat>, bs: nat, cells: seq<nat>, bno: nat, off: nat, n: nat)
    requires Stored(pages, bids, bs, cells) && bno < |bids| && off + n <= bs
    ensures bids[bno] in pages && |pages[bids[bno]]| == bs && BlockStart(bs, bno) + off + n <= |cells|
    ensures pages[bids[bno]][off..off + n] == cells[BlockStart(bs, bno) + off..BlockStart(bs, bno) + off + n]
  {
    assert PageIs(pages, bids, bs, cells, bno);
    SliceOfSlice(cells, BlockStart(bs, bno), BlockStart(bs, bno) + bs, off, off + n);
  }

  /** `DIV_CEIL`. */
  function CeilDiv(x: nat, d: nat): nat
    requires d >= 1
  {
    (x + d - 1) / d
  }

  /** The last block begins before the end, and the blocks reach the end. */
  lemma CeilSpec(x: nat, d: nat)
    requires d >= 1
    ensures x <= BlockStart(d, CeilDiv(x, d)) < x + d
    ensures x == BlockStart(d, x / d) + x % d
    ensures CeilDiv(x, d) == if x % d == 0 then x / d else x / d + 1
  {
    var q, r := x / d, x % d;
    if r == 0 {
      QuotientUnique(x + d - 1, d, q, d - 1);
    } else {
      QuotientUnique(x + d - 1, d, q + 1, r - 1);
    }
    StartStep(d, q);
  }

  /** Writing on inside the last block does not change how many blocks the file has. */
  lemma CeilWithin(x: nat, n: nat, d: nat)
    requires d >= 1 && n >= 1 && x % d + n <= d
    ensures CeilDiv(x + n, d) == x / d + 1
  {
    var q, r := x / d, x % d;
    StartStep(d, q);
    QuotientUnique(x + n + d - 1, d, q + 1, r + n - 1);
  }
}
