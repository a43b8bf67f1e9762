/**
 Powers of two, dyadic alignment and the buddy of an aligned index.

 Alignment is defined by halving, which turns every fact below into a short
 induction over linear arithmetic; `AlignedIsMultiple` connects it with division.
 */
module Dyadic {
  import opened Arith

  function Pow2(k: nat): (r: nat)
    ensures r >= 1
  {
    if k == 0 then 1 else 2 * Pow2(k - 1)
  }

  predicate Aligned(i: nat, k: nat) {
    k == 0 || (i % 2 == 0 && Aligned(i / 2, k - 1))
  }

  /** kernel/lib/qlib.c, `log2`: the number of halvings that reach 1. */
  function Log2(v: nat): nat
    requires v >= 1
  {
    if v == 1 then 0 else 1 + Log2(v / 2)
  }

  lemma Log2OfPow2(k: nat)
    ensures Log2(Pow2(k)) == k
  {
  }

  lemma Pow2Monotone(a: nat, b: nat)
    requires a <= b
    ensures Pow2(a) <= Pow2(b)
    ensures a < b ==> 2 * Pow2(a) <= Pow2(b)
  {
  }

  lemma {:induction false} AlignedIsMultiple(i: nat, k: nat)
    ensures Aligned(i, k) <==> i % Pow2(k) == 0
    ensures Aligned(i, k) <==> i == Pow2(k) * (i / Pow2(k))
  {
    if k > 0 {
      AlignedIsMultiple(i / 2, k - 1);
      DivByDouble(i, Pow2(k - 1));
    }
    DivMod(i, Pow2(k));
  }

  lemma {:induction false} AlignedHalves(i: nat, k: nat)
    requires Aligned(i, k + 1)
    ensures Aligned(i, k) && Aligned(i + Pow2(k), k)
  {
    if k > 0 {
      AlignedHalves(i / 2, k - 1);
      assert (i + Pow2(k)) / 2 == i / 2 + Pow2(k - 1);
    }
  }

  /** Dyadic intervals are laminar: when one starts inside a larger one, it ends inside it. */
  lemma {:induction false} AlignedNested(i: nat, a: nat, j: nat, b: nat)
    requires a <= b && Aligned(i, a) && Aligned(j, b)
    requires j <= i < j + Pow2(b)
    ensures i + Pow2(a) <= j + Pow2(b)
  {
    if a > 0 {
      AlignedNested(i / 2, a - 1, j / 2, b - 1);
    }
  }

  /** The enclosing dyadic interval of order `b` around an aligned interval of order `a`. */
  lemma {:induction false} AlignedDown(i: nat, a: nat, b: nat)
    requires a <= b && Aligned(i, b)
    ensures Aligned(i, a)
  {
    if a > 0 {
      AlignedDown(i / 2, a - 1, b - 1);
    }
  }

  /** kernel/mm/page_alloc.c, `get_buddy`: the sibling chosen by the parity of `i / 2^k`. */
  function Buddy(i: nat, k: nat): nat
    requires Aligned(i, k)
  {
    AlignedIsMultiple(i, k);
    if (i / Pow2(k)) % 2 == 1 then
      assert i >= Pow2(k) by { MulMonotone(Pow2(k), 1, i / Pow2(k)); }
      i - Pow2(k)
    else i + Pow2(k)
  }

  lemma BuddyDoubles(i: nat, k: nat)
    requires k > 0 && Aligned(i, k)
    ensures Buddy(i, k) == 2 * Buddy(i / 2, k - 1)
  {
    DivByDouble(i, Pow2(k - 1));
  }

  function Min(a: nat, b: nat): nat { if b < a then b else a }

  /** A block and its buddy are the two halves of one aligned block of the next order. */
  lemma {:induction false} BuddyHalves(i: nat, k: nat)
    requires Aligned(i, k)
    ensures var b := Buddy(i, k); var m := Min(i, b);
      && Aligned(b, k) && Aligned(m, k + 1)
      && ((i == m && b == m + Pow2(k)) || (b == m && i == m + Pow2(k)))
  {
    hide Buddy;
    if k == 0 {
      BuddyOfPage(i);
    } else {
      BuddyDoubles(i, k);
      BuddyHalves(i / 2, k - 1);
      var b' := Buddy(i / 2, k - 1);
      assert Min(i, 2 * b') == 2 * Min(i / 2, b');
      DoubleAligned(b', k - 1);
      DoubleAligned(Min(i / 2, b'), k);
    }
  }

  lemma BuddyOfPage(i: nat)
    ensures Aligned(i, 0) && Buddy(i, 0) == if i % 2 == 1 then i - 1 else i + 1
    ensures Aligned(Min(i, Buddy(i, 0)), 1)
  {
  }

  lemma DoubleAligned(i: nat, k: nat)
    requires Aligned(i, k)
    ensures Aligned(2 * i, k + 1)
  {
  }

  lemma BuddyInvolution(i: nat, k: nat)
    requires Aligned(i, k)
    ensures Aligned(Buddy(i, k), k) && Buddy(Buddy(i, k), k) == i
  {
    var b := Buddy(i, k);
    BuddyHalves(i, k);
    BuddyHalves(b, k);
    var m, m' := Min(i, b), Min(b, Buddy(b, k));
    if m' < m {
      AlignedNested(m, k + 1, m', k + 1);
    } else if m < m' {
      AlignedNested(m', k + 1, m, k + 1);
    }
  }
}
