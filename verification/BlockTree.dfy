/**
 The block pointers of an ext2 inode (kernel/fs/ext2/block.c) as a tree: 12 direct slots
 and three slots with one, two and three levels of pointer tables. A position in the
 tree is a path: the slot in the inode followed by one index per table.
 */
module BlockTree {
  import opened Arith

  const N_DIRECT: nat := 12
  const N_BLOCKS: nat := 15

  type Path = seq<nat>

  /** `n` pointers per table; `blocks` is the inode's array, `tables` the pointer blocks by number. */
  datatype Tree = Tree(n: nat, blocks: seq<nat>, tables: map<nat, seq<nat>>)

  /** The number of tables below a slot of the inode. */
  function Depth(slot: nat): nat { if slot < N_DIRECT then 0 else slot - N_DIRECT + 1 }

  predicate IsPath(n: nat, p: Path) {
    |p| >= 1 && p[0] < N_BLOCKS && |p| <= Depth(p[0]) + 1 && forall i :: 1 <= i < |p| ==> p[i] < n
  }

  /** The path of a data block, as opposed to a pointer block. */
  predicate IsLeaf(n: nat, p: Path) { IsPath(n, p) && |p| == Depth(p[0]) + 1 }

  function Up(p: Path): Path
    requires |p| >= 1
  {
    p[..|p| - 1]
  }

  function Entry(t: Tree, b: nat, i: nat): nat {
    if b in t.tables && i < |t.tables[b]| then t.tables[b][i] else 0
  }

  /** The pointer stored at a path; 0 below a missing table. */
  function Value(t: Tree, p: Path): nat
    requires |t.blocks| == N_BLOCKS && |p| >= 1 && p[0] < N_BLOCKS
  {
    if |p| == 1 then t.blocks[p[0]]
    else
      var b := Value(t, Up(p));
      if b == 0 then 0 else Entry(t, b, p[|p| - 1])
  }

  predicate SamePath(p: Path, q: Path) { p == q }

  /** Paths with a nonzero pointer are told apart by that pointer: no block is used twice. */
  ghost predicate Injective(t: Tree)
    requires |t.blocks| == N_BLOCKS
  {
    forall p, q {:trigger SamePath(p, q)} ::
      IsPath(t.n, p) && IsPath(t.n, q) && Value(t, p) != 0 && Value(t, p) == Value(t, q) ==> SamePath(p, q)
  }

  ghost predicate HasTables(t: Tree)
    requires |t.blocks| == N_BLOCKS
  {
    && (forall b :: b in t.tables ==> |t.tables[b]| == t.n)
    && (forall p :: IsPath(t.n, p) && !IsLeaf(t.n, p) && Value(t, p) != 0 ==> Value(t, p) in t.tables)
  }

  ghost predicate WellFormed(t: Tree) {
    t.n >= 1 && |t.blocks| == N_BLOCKS && Injective(t) && HasTables(t)
  }

  lemma UpIsPath(n: nat, p: Path)
    requires IsPath(n, p) && |p| > 1
    ensures IsPath(n, Up(p)) && !IsLeaf(n, Up(p)) && Up(p)[0] == p[0] && p == Up(p) + [p[|p| - 1]]
  {
  }

  lemma {:induction false} ZeroBelow(t: Tree, p: Path, q: Path)
    requires |t.blocks| == N_BLOCKS && |p| >= 1 && p <= q && p[0] < N_BLOCKS && Value(t, p) == 0
    ensures Value(t, q) == 0
  {
    if |p| < |q| {
      assert p <= Up(q);
      ZeroBelow(t, p, Up(q));
    } else {
      assert p == q;
    }
  }

  // ------------------------------------------------------- filling one empty slot

  ghost predicate Fresh(t: Tree, bid: nat)
    requires |t.blocks| == N_BLOCKS
  {
    bid != 0 && forall p :: IsPath(t.n, p) ==> Value(t, p) != bid
  }

  /** A slot that can be filled: empty, with its table present. */
  predicate Fillable(t: Tree, p: Path) {
    && |t.blocks| == N_BLOCKS && IsPath(t.n, p) && Value(t, p) == 0
    && (|p| > 1 ==> Value(t, Up(p)) != 0 && Value(t, Up(p)) in t.tables && |t.tables[Value(t, Up(p))]| == t.n)
  }

  function Zeros(n: nat): (z: seq<nat>)
    ensures |z| == n && forall i :: 0 <= i < n ==> z[i] == 0
  {
    seq(n, _ => 0)
  }

  /** The empty slot at `p` gets block `bid`, which `new_empty_block` has zeroed unless `p` is a direct slot. */
  function Fill(t: Tree, p: Path, bid: nat): Tree
    requires Fillable(t, p)
  {
    var tables := if p[0] < N_DIRECT then t.tables else t.tables[bid := Zeros(t.n)];
    if |p| == 1 then t.(blocks := t.blocks[p[0] := bid], tables := tables)
    else
      var b := Value(t, Up(p));
      t.(tables := tables[b := t.tables[b][p[|p| - 1] := bid]])
  }

  /** Filling a slot changes the pointer at that slot and nowhere else. */
  lemma {:induction false} FillValue(t: Tree, p: Path, bid: nat, q: Path)
    requires WellFormed(t) && Fillable(t, p) && Fresh(t, bid) && IsPath(t.n, q)
    ensures Value(Fill(t, p, bid), q) == if q == p then bid else Value(t, q)
    decreases |q|
  {
    if |q| > 1 {
      var r := Up(q);
      UpIsPath(t.n, q);
      FillValue(t, p, bid, r);
      if r == p {
        assert q[|q| - 1] < t.n;
      } else if q == p {
      } else if Value(t, r) != 0 && |p| > 1 && Value(t, r) == Value(t, Up(p)) {
        UpIsPath(t.n, p);
        assert SamePath(r, Up(p));
      }
    }
  }

  lemma FillKeeps(t: Tree, p: Path, bid: nat)
    requires WellFormed(t) && Fillable(t, p) && Fresh(t, bid)
    ensures WellFormed(Fill(t, p, bid))
  {
    var u := Fill(t, p, bid);
    forall q | IsPath(t.n, q) ensures Value(u, q) == if q == p then bid else Value(t, q) {
      FillValue(t, p, bid, q);
    }
  }

  // --------------------------------------------------- block numbers and paths

  function Pow(n: nat, d: nat): nat { if d == 0 then 1 else n * Pow(n, d - 1) }

  /** The number of data blocks below a path. */
  function Span(n: nat, p: Path): nat
    requires IsPath(n, p)
  {
    Pow(n, Depth(p[0]) + 1 - |p|)
  }

  /** The first block number of a slot of the inode. */
  function Base(n: nat, slot: nat): nat {
    if slot <= 12 then slot else if slot == 13 then 12 + n else 12 + n + n * n
  }

  /** The first block number below a path. */
  function First(n: nat, p: Path): nat
    requires IsPath(n, p)
  {
    if |p| == 1 then Base(n, p[0]) else First(n, Up(p)) + p[|p| - 1] * Span(n, p)
  }

  /** The number of blocks a file can address. */
  function Limit(n: nat): nat { 12 + n + n * n + n * n * n }

  /** `find_block_layer`: the table level and the index digits of a block number from 12 on. */
  function Layer(n: nat, bno: nat): nat
    requires 12 <= bno
  {
    if bno - 12 < n then 0 else if bno - 12 - n < n * n then 1 else 2
  }

  function Reduced(n: nat, bno: nat): nat
    requires 12 <= bno
  {
    if bno - 12 < n then bno - 12 else if bno - 12 - n < n * n then bno - 12 - n else bno - 12 - n - n * n
  }

  /** The digits `id[0]`, `id[1]`, `id[2]` that the source computes. */
  function Digit(n: nat, x: nat, i: nat): nat
    requires n >= 1 && i < 3
  {
    if i == 0 then x % n else if i == 1 then (x / n) % n else x / (n * n)
  }

  /** The path that `get_bid` and `alloc_block` follow for a block number. */
  function PathOf(n: nat, bno: nat): Path
    requires n >= 1
  {
    if bno < N_DIRECT then [bno]
    else
      var x := Reduced(n, bno);
      match Layer(n, bno)
      case 0 => [12, Digit(n, x, 0)]
      case 1 => [13, Digit(n, x, 1), Digit(n, x, 0)]
      case _ => [14, Digit(n, x, 2), Digit(n, x, 1), Digit(n, x, 0)]
  }

  lemma LayerFacts(n: nat, bno: nat, sqr: nat, cube: nat)
    requires n >= 1 && bno >= 12 && sqr == n * n && cube == sqr * n
    ensures n <= sqr <= cube && Limit(n) == 12 + n + sqr + cube
    ensures Layer(n, bno) == if bno - 12 < n then 0 else if bno - 12 - n < sqr then 1 else 2
    ensures Reduced(n, bno)
      == if bno - 12 < n then bno - 12 else if bno - 12 - n < sqr then bno - 12 - n else bno - 12 - n - sqr
  {
    MulMonotone(n, 1, n);
    MulMonotone(sqr, 1, n);
  }

  lemma DigitSum(n: nat, x: nat)
    requires n >= 1 && x < n * n * n
    ensures Digit(n, x, 0) < n && Digit(n, x, 1) < n && Digit(n, x, 2) < n
    ensures x == Digit(n, x, 2) * (n * n) + Digit(n, x, 1) * n + Digit(n, x, 0)
  {
    TwoDigits(n, x);
    QuotientBound(x, n * n, n);
  }

  lemma FirstSingle(n: nat, a: nat)
    requires a < n
    ensures IsLeaf(n, [12, a]) && First(n, [12, a]) == 12 + a
  {
    assert Up([12, a]) == [12];
    assert Span(n, [12, a]) == 1;
  }

  lemma FirstDouble(n: nat, a: nat, b: nat)
    requires a < n && b < n
    ensures IsLeaf(n, [13, a, b]) && First(n, [13, a, b]) == 12 + n + a * n + b
  {
    var p, q, r := [13, a, b], [13, a], [13];
    assert Up(p) == q && Up(q) == r;
    assert Pow(n, 1) == n && Pow(n, 0) == 1;
    assert Span(n, p) == 1 && Span(n, q) == n;
    assert First(n, q) == 12 + n + a * n;
  }

  lemma FirstTriple(n: nat, a: nat, b: nat, c: nat)
    requires a < n && b < n && c < n
    ensures IsLeaf(n, [14, a, b, c]) && First(n, [14, a, b, c]) == 12 + n + n * n + a * (n * n) + b * n + c
  {
    var p, q, r, s := [14, a, b, c], [14, a, b], [14, a], [14];
    assert Up(p) == q && Up(q) == r && Up(r) == s;
    assert Pow(n, 0) == 1;
    assert Pow(n, 1) == n * Pow(n, 0) == n;
    assert Pow(n, 2) == n * Pow(n, 1);
    assert Span(n, p) == 1 && Span(n, q) == n && Span(n, r) == n * n;
    assert First(n, r) == 12 + n + n * n + a * (n * n);
    assert First(n, q) == First(n, r) + b * n;
  }

  /** Every block number below the limit has a leaf path, and that path starts at the number. */
  lemma PathOfLeaf(n: nat, bno: nat)
    requires n >= 1 && bno < Limit(n)
    ensures IsLeaf(n, PathOf(n, bno)) && First(n, PathOf(n, bno)) == bno
  {
    if bno >= N_DIRECT {
      var x := Reduced(n, bno);
      if Layer(n, bno) == 0 {
        QuotientUnique(x, n, 0, x);
        FirstSingle(n, x);
      } else if Layer(n, bno) == 1 {
        TwoDigitBlock(n, x);
        var a, b := x / n, x % n;
        assert PathOf(n, bno) == [13, a, b];
        FirstDouble(n, a, b);
      } else {
        DigitSum(n, x);
        var a, b, c := Digit(n, x, 2), Digit(n, x, 1), Digit(n, x, 0);
        assert PathOf(n, bno) == [14, a, b, c];
        FirstTriple(n, a, b, c);
      }
    }
  }

  lemma TwoDigitBlock(n: nat, x: nat)
    requires n >= 1 && x < n * n
    ensures x / n < n && (x / n) % n == x / n && x == (x / n) * n + x % n
  {
    QuotientBound(x, n, n);
    QuotientUnique(x / n, n, 0, x / n);
  }

  /** The children of a table split its block numbers into `n` consecutive spans. */
  lemma ChildSpan(n: nat, p: Path)
    requires IsPath(n, p) && |p| > 1
    ensures IsPath(n, Up(p)) && Span(n, Up(p)) == n * Span(n, p)
    ensures First(n, Up(p)) <= First(n, p) && First(n, p) + Span(n, p) <= First(n, Up(p)) + Span(n, Up(p))
  {
    UpIsPath(n, p);
    var s, d := Span(n, p), p[|p| - 1];
    MulMonotone(s, d + 1, n);
    assert s * (d + 1) == d * s + s;
  }

  ghost predicate Below(n: nat, p: Path, b: nat)
    requires IsPath(n, p)
  {
    First(n, p) <= b < First(n, p) + Span(n, p)
  }

  /** A leaf lies in the span of each of its prefixes. */
  lemma {:induction false} PrefixBelow(n: nat, p: Path, q: Path)
    requires n >= 1 && IsPath(n, p) && IsLeaf(n, q) && p <= q
    ensures Below(n, p, First(n, q))
    decreases |q| - |p|
  {
    if |p| < |q| {
      var r := q[..|p| + 1];
      assert Up(r) == p;
      PrefixBelow(n, r, q);
      ChildSpan(n, r);
    } else {
      assert p == q && Span(n, q) == 1;
    }
  }

  /** Spans of different children of one table do not meet. */
  lemma SameChild(n: nat, p: Path, q: Path, b: nat)
    requires IsPath(n, p) && IsPath(n, q) && |p| == |q| > 1 && Up(p) == Up(q)
    requires Below(n, p, b) && Below(n, q, b)
    ensures p == q
  {
    UpIsPath(n, p);
    UpIsPath(n, q);
    var s, d, e := Span(n, p), p[|p| - 1], q[|q| - 1];
    assert Span(n, q) == s;
    if d < e { MulMonotone(s, d + 1, e); SpanEnd(s, d); }
    if e < d { MulMonotone(s, e + 1, d); SpanEnd(s, e); }
  }

  lemma SpanEnd(s: nat, d: nat)
    ensures s * (d + 1) == d * s + s
  {
  }

  /** The paths whose span holds a block number are exactly the prefixes of its path. */
  lemma {:induction false} BelowIsPrefix(n: nat, p: Path, bno: nat)
    requires n >= 1 && IsPath(n, p) && Below(n, p, bno)
    ensures bno < Limit(n) && p <= PathOf(n, bno)
    decreases |p|
  {
    if |p| == 1 {
      SlotOf(n, p, bno);
    } else {
      UpIsPath(n, p);
      ChildSpan(n, p);
      var r := Up(p);
      BelowIsPrefix(n, r, bno);
      PathOfLeaf(n, bno);
      var q := PathOf(n, bno);
      var c := q[..|p|];
      assert Up(c) == r;
      PrefixBelow(n, c, q);
      SameChild(n, p, c, bno);
    }
  }

  lemma SlotOf(n: nat, p: Path, bno: nat)
    requires n >= 1 && IsPath(n, p) && |p| == 1 && Below(n, p, bno)
    ensures bno < Limit(n) && p <= PathOf(n, bno)
  {
    assert Pow(n, 0) == 1 && Pow(n, 1) == n && Pow(n, 2) == n * n && Pow(n, 3) == n * (n * n) == n * n * n;
  }

  /** `find_block_layer` is a bijection between block numbers below the limit and leaf paths. */
  lemma LeafIsPathOf(n: nat, p: Path)
    requires n >= 1 && IsLeaf(n, p)
    ensures First(n, p) < Limit(n) && PathOf(n, First(n, p)) == p
  {
    PrefixBelow(n, p, p);
    BelowIsPrefix(n, p, First(n, p));
    PathOfLeaf(n, First(n, p));
  }

  // -------------------------------------------------------------- owned blocks

  ghost predicate Holds(t: Tree, b: nat)
    requires |t.blocks| == N_BLOCKS
  {
    b != 0 && exists p :: IsPath(t.n, p) && Value(t, p) == b
  }

  /** `s` is the set of data and pointer blocks of the file. */
  ghost predicate Owns(t: Tree, s: set<nat>)
    requires |t.blocks| == N_BLOCKS
  {
    forall b: nat :: b in s <==> Holds(t, b)
  }

  lemma FillOwns(t: Tree, p: Path, bid: nat, s: set<nat>)
    requires WellFormed(t) && Fillable(t, p) && Fresh(t, bid) && Owns(t, s)
    ensures Owns(Fill(t, p, bid), s + {bid}) && bid !in s
  {
    var u := Fill(t, p, bid);
    forall q | IsPath(t.n, q) ensures Value(u, q) == if q == p then bid else Value(t, q) {
      FillValue(t, p, bid, q);
    }
    forall b: nat ensures b in s + {bid} <==> Holds(u, b) {
      if b == bid {
        assert Value(u, p) == b;
      } else if b in s {
        var q :| IsPath(t.n, q) && Value(t, q) == b;
        assert Value(u, q) == b;
      }
    }
  }

  /** The number of nodes that are missing on the way to `p`, `p` included. */
  function Missing(t: Tree, p: Path): nat
    requires |t.blocks| == N_BLOCKS && |p| >= 1 && p[0] < N_BLOCKS
  {
    (if Value(t, p) == 0 then 1 else 0) + (if |p| == 1 then 0 else Missing(t, Up(p)))
  }

  lemma {:induction false} FillMissing(t: Tree, p: Path, bid: nat, q: Path)
    requires WellFormed(t) && Fillable(t, p) && Fresh(t, bid) && IsPath(t.n, q)
    ensures Missing(Fill(t, p, bid), q) == Missing(t, q) - (if p <= q then 1 else 0)
    decreases |q|
  {
    FillValue(t, p, bid, q);
    if |q| > 1 {
      UpIsPath(t.n, q);
      FillMissing(t, p, bid, Up(q));
    }
  }

  lemma {:induction false} NoneMissing(t: Tree, p: Path)
    requires |t.blocks| == N_BLOCKS && IsPath(t.n, p) && Value(t, p) != 0
    ensures Missing(t, p) == 0
  {
    if |p| > 1 { UpIsPath(t.n, p); NoneMissing(t, Up(p)); }
  }

  lemma PathShape(n: nat, bno: nat)
    requires n >= 1 && N_DIRECT <= bno < Limit(n)
    ensures var p, layer := PathOf(n, bno), Layer(n, bno);
      && layer < 3 && |p| == layer + 2 && p[0] == N_DIRECT + layer
      && forall i :: 0 <= i <= layer ==> p[layer + 1 - i] == Digit(n, Reduced(n, bno), i)
  {
  }

  /** The plain map that the tree stands for: block number to disk block, 0 when unmapped. */
  function Lookup(t: Tree, bno: nat): nat
    requires |t.blocks| == N_BLOCKS && t.n >= 1 && bno < Limit(t.n)
  {
    PathOfLeaf(t.n, bno);
    Value(t, PathOf(t.n, bno))
  }

  /** A leaf that is a prefix of a leaf is that leaf. */
  lemma LeafPrefix(n: nat, p: Path, q: Path)
    requires IsLeaf(n, p) && IsLeaf(n, q) && p <= q
    ensures p == q
  {
  }
}
