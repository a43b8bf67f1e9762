/**
 Whole lives of a file in block group 0: blocks 0, 1, 2, ... are allocated in order and
 then all of them are freed. The pointer tables never have gaps, and the bitmap and the
 free counter end up as they were before the first allocation.
 */
module BlockRuns {
  import opened Arith
  import opened BlockTree
  import opened BlockFreeing
  import opened BlockFile

  /** What `AllocBlock` guarantees about the allocation of block number `bno`. */
  ghost predicate AllocStep(s: FileState, s': FileState, bno: nat) {
    && Consistent(s) && Consistent(s') && bno < Limit(s.tree.n)
    && Extended(s, s', PathOf(s.tree.n, bno)) && Lookup(s'.tree, bno) != 0
  }

  ghost predicate EmptyFile(s: FileState) {
    Consistent(s) && forall p :: IsPath(s.tree.n, p) ==> Value(s.tree, p) == 0
  }

  function Last(run: seq<FileState>): FileState
    requires |run| >= 1
  {
    run[|run| - 1]
  }

  /** The states of a file that was empty and to which blocks 0, 1, 2, ... were added. */
  ghost predicate AppendRun(run: seq<FileState>) {
    var n := |run| - 1;
    && n >= 0 && |run[n].tree.blocks| == N_BLOCKS && run[n].tree.n >= 1
    && if n == 0 then EmptyFile(run[0]) else AppendRun(run[..n]) && AllocStep(run[n - 1], run[n], n - 1)
  }

  /** A node is present exactly when a block number below `k` lies in its span. */
  ghost predicate Sequential(t: Tree, k: nat)
    requires |t.blocks| == N_BLOCKS
  {
    forall p :: IsPath(t.n, p) ==> (Value(t, p) != 0 <==> First(t.n, p) < k)
  }

  lemma {:induction false} PowPositive(n: nat, d: nat)
    requires n >= 1
    ensures Pow(n, d) >= 1
  {
    if d > 0 {
      PowPositive(n, d - 1);
      MulMonotone(n, 1, Pow(n, d - 1));
    }
  }

  lemma SequentialStep(s: FileState, s': FileState, k: nat)
    requires Consistent(s) && Sequential(s.tree, k) && AllocStep(s, s', k)
    ensures Sequential(s'.tree, k + 1)
  {
    forall p | IsPath(s.tree.n, p) ensures Value(s'.tree, p) != 0 <==> First(s.tree.n, p) < k + 1 {
      SequentialAt(s, s', k, p);
    }
  }

  lemma SequentialAt(s: FileState, s': FileState, k: nat, p: Path)
    requires Consistent(s) && Sequential(s.tree, k) && AllocStep(s, s', k) && IsPath(s.tree.n, p)
    ensures Value(s'.tree, p) != 0 <==> First(s.tree.n, p) < k + 1
  {
    hide Consistent, Accounted, Missing, First, Below, Value, PathOf;
    ConsistentShape(s);
    var n := s.tree.n;
    var path := PathOf(n, k);
    PathOfLeaf(n, k);
    if p <= path {
      PrefixBelow(n, p, path);
      BelowFrom(n, p, k);
      PrefixNonzero(s'.tree, p, path);
    } else if First(n, p) == k {
      BelowFrom(n, p, k);
      BelowIsPrefix(n, p, k);
    }
  }

  /** A span is never empty, so it holds its first number and none before it. */
  lemma BelowFrom(n: nat, p: Path, k: nat)
    requires n >= 1 && IsPath(n, p)
    ensures Below(n, p, First(n, p)) && (Below(n, p, k) ==> First(n, p) <= k)
  {
    PowPositive(n, Depth(p[0]) + 1 - |p|);
  }

  lemma ConsistentShape(s: FileState)
    requires Consistent(s)
    ensures s.tree.n >= 1 && |s.tree.blocks| == N_BLOCKS
  {
  }

  lemma ChildrenOrdered(n: nat, p: Path, i: nat, j: nat)
    requires IsPath(n, p) && !IsLeaf(n, p) && i <= j < n
    ensures IsPath(n, Child(p, i)) && IsPath(n, Child(p, j)) && First(n, Child(p, i)) <= First(n, Child(p, j))
  {
    var c, d := Child(p, i), Child(p, j);
    hide Pow;
    assert Up(c) == p && Up(d) == p;
    var s := Span(n, c);
    assert s == Span(n, d);
    MulMonotone(s, i, j);
    assert First(n, c) == First(n, p) + i * s && First(n, d) == First(n, p) + j * s;
  }

  lemma SequentialGapFree(t: Tree, k: nat)
    requires WellFormed(t) && Sequential(t, k)
    ensures GapFree(t)
  {
    hide First, Value, Injective, HasTables;
    forall p, i: nat, j: nat ensures !Gap(t, p, i, j) {
      if IsPath(t.n, p) && !IsLeaf(t.n, p) && i < j < t.n {
        ChildrenOrdered(t.n, p, i, j);
      }
    }
  }

  lemma AccountedChain(s0: FileState, s1: FileState, s2: FileState)
    requires Accounted(s0, s1, s1.owned - s0.owned) && Accounted(s1, s2, s2.owned - s1.owned)
    ensures Accounted(s0, s2, s2.owned - s0.owned)
  {
    hide Sub16;
    var a, b := s1.owned - s0.owned, s2.owned - s1.owned;
    assert s2.owned - s0.owned == a + b && a !! b;
    assert |a + b| == |a| + |b|;
    Sub16Twice(s0.freeCnt, |a|, |b|);
  }

  lemma Sub16Twice(c: nat, j: nat, k: nat)
    ensures Sub16(Sub16(c, j), k) == Sub16(c, j + k)
  {
  }

  lemma {:induction false} AppendRunInvariant(run: seq<FileState>)
    requires AppendRun(run)
    ensures var s := Last(run);
      Consistent(s) && Sequential(s.tree, |run| - 1) && Accounted(run[0], s, s.owned - run[0].owned)
  {
    hide Sequential, Accounted, AllocStep, EmptyFile, Consistent;
    var n := |run| - 1;
    if n == 0 {
      EmptyStart(run[0]);
    } else {
      AppendRunInvariant(run[..n]);
      AppendStep(run[0], run[n - 1], run[n], n - 1);
    }
  }

  lemma EmptyStart(s: FileState)
    requires EmptyFile(s)
    ensures Consistent(s) && Sequential(s.tree, 0) && Accounted(s, s, s.owned - s.owned)
  {
    assert s.owned - s.owned == {};
  }

  lemma AppendStep(s0: FileState, s: FileState, s': FileState, k: nat)
    requires AllocStep(s, s', k) && Sequential(s.tree, k) && Accounted(s0, s, s.owned - s0.owned)
    ensures Consistent(s') && Sequential(s'.tree, k + 1) && Accounted(s0, s', s'.owned - s0.owned)
  {
    SequentialStep(s, s', k);
    AccountedChain(s0, s, s');
  }

  /** An empty file owns nothing. */
  lemma EmptyOwnsNothing(s: FileState)
    requires EmptyFile(s)
    ensures s.owned == {}
  {
    forall b: nat ensures b !in s.owned {
      assert !Holds(s.tree, b);
    }
  }

  lemma {:induction false} StartsEmpty(run: seq<FileState>)
    requires AppendRun(run)
    ensures |run| >= 1 && EmptyFile(run[0]) && run[0].freeCnt < U16
  {
    hide AllocStep, EmptyFile;
    var n := |run| - 1;
    if n > 0 {
      StartsEmpty(run[..n]);
    } else {
      EmptyCount(run[0]);
    }
  }

  lemma EmptyCount(s: FileState)
    requires EmptyFile(s)
    ensures s.freeCnt < U16
  {
  }

  /** After an append run, `free_blocks` restores the bitmap and the free counter. */
  lemma FreeRestores(run: seq<FileState>, used: set<nat>, freeCnt: nat)
    requires AppendRun(run)
    requires Cleared(Last(run).used, Last(run).freeCnt, used, freeCnt, FreedSlots(Last(run).tree, 0))
    ensures used == run[0].used && freeCnt == run[0].freeCnt
  {
    hide Sequential, Accounted, Cleared, AllocStep, EmptyFile, FreedSlots, Injective, HasTables, Owns, GapFree;
    var s := Last(run);
    AppendRunInvariant(run);
    StartsEmpty(run);
    EmptyOwnsNothing(run[0]);
    SequentialGapFree(s.tree, |run| - 1);
    FreedAreOwned(s.tree, s.owned);
    CountsCancel(run[0], s, used, freeCnt);
  }

  lemma CountsCancel(s0: FileState, s: FileState, used: set<nat>, freeCnt: nat)
    requires s0.owned == {} && s0.freeCnt < U16
    requires Accounted(s0, s, s.owned - s0.owned) && Cleared(s.used, s.freeCnt, used, freeCnt, s.owned)
    ensures used == s0.used && freeCnt == s0.freeCnt
  {
    assert s.owned - s0.owned == s.owned;
  }

  /** The block map of an append run binds exactly the block numbers below its length. */
  lemma AppendRunMaps(run: seq<FileState>, b: nat)
    requires AppendRun(run) && b < Limit(Last(run).tree.n)
    ensures Lookup(Last(run).tree, b) != 0 <==> b < |run| - 1
  {
    AppendRunInvariant(run);
    PathOfLeaf(Last(run).tree.n, b);
  }

  lemma AllocShape(s: FileState, s': FileState, bno: nat)
    requires AllocStep(s, s', bno)
    ensures |s'.tree.blocks| == N_BLOCKS && s'.tree.n >= 1
  {
  }

  lemma AppendRunStep(run: seq<FileState>, s: FileState)
    requires AppendRun(run) && AllocStep(Last(run), s, |run| - 1)
    ensures AppendRun(run + [s])
  {
    hide AllocStep, EmptyFile;
    AllocShape(Last(run), s, |run| - 1);
    var longer := run + [s];
    assert longer[..|run|] == run && longer[|run| - 1] == Last(run) && longer[|run|] == s;
  }

  /** A file that grew in order has block 0, or nothing at all: `find_group` does not stop the kernel. */
  lemma FirstComesFirst(run: seq<FileState>)
    requires AppendRun(run)
    ensures Consistent(Last(run)) && if |run| == 1 then Last(run).blockCnt == 0 else Last(run).tree.blocks[0] != 0
  {
    AppendRunInvariant(run);
    var s := Last(run);
    if |run| == 1 {
      EmptyOwnsNothing(s);
    } else {
      DirectPath(s.tree, 0);
      AppendRunMaps(run, 0);
    }
  }

  /** Block number `i` is added to a file that has the blocks before it. */
  method AppendOne(file: File, i: nat, ghost run: seq<FileState>) returns (ok: bool)
    requires file.Valid() && AppendRun(run) && |run| == i + 1 && Last(run) == file.State()
    modifies file, file.blocks, file.bitmap
    ensures ok ==> file.Valid() && AppendRun(run + [file.State()])
    ensures !ok ==> file.FullPrefix() || Limit(file.nPtr) <= i
  {
    ghost var s := file.State();
    assert s.tree == file.Tree() && file.Tree().n == file.nPtr;
    hide AppendRun, Limit, Lookup, Value, Extended, Inserted, PathOf;
    if i < Limit(file.nPtr) { AppendRunMaps(run, i); }
    FirstComesFirst(run);
    var r := file.AllocBlock(i);
    ok := r.Some?;
    if ok {
      InsertedStep(s, file.State(), i, r.value);
      AppendRunStep(run, file.State());
    }
  }

  lemma InsertedStep(s: FileState, s': FileState, bno: nat, bid: nat)
    requires Consistent(s) && Consistent(s') && Inserted(s, s', bno, bid) && Extended(s, s', PathOf(s.tree.n, bno))
    ensures AllocStep(s, s', bno)
  {
  }

  /**
   The whole life of a file: `run` are its states while blocks 0, ..., k - 1 are allocated, and then
   all of them are freed. The bitmap and the free counter are what they were. The kernel stops early
   only when the searched part of the bitmap is full or the block numbers are used up.
   */
  method AppendAndFree(file: File, k: nat) returns (ok: bool, ghost run: seq<FileState>)
    requires file.Valid() && EmptyFile(file.State())
    modifies file, file.blocks, file.bitmap
    ensures AppendRun(run) && run[0] == old(file.State())
    ensures ok ==> |run| == k + 1 && Last(run).tree == file.Tree()
    ensures ok ==>
              file.UsedBlocks() == old(file.UsedBlocks()) && file.freeCnt == old(file.freeCnt) && file.blockCnt == 0
    ensures !ok ==> file.FullPrefix() || Limit(file.nPtr) < k
  {
    run := [file.State()];
    FirstRun(file.State());
    hide AppendRun, Limit, Consistent, EmptyFile, Cleared, FreedSlots;
    for i := 0 to k
      invariant file.Valid() && AppendRun(run) && |run| == i + 1
      invariant Last(run) == file.State() && run[0] == old(file.State())
    {
      ok := AppendOne(file, i, run);
      if !ok { return; }
      run := run + [file.State()];
    }
    file.FreeBlocks();
    FreeRestores(run, file.UsedBlocks(), file.freeCnt);
    ok := true;
  }

  lemma FirstRun(s: FileState)
    requires EmptyFile(s)
    ensures AppendRun([s])
  {
  }
}
