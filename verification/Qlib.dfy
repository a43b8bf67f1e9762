/**
 The bit arithmetic of kernel/include/lib/qlib.h and kernel/lib/qlib.c: `fixSize`,
 which smears the top bit downwards with shifts and ors, and the `log2` loop.
 Bitwise operators are defined on naturals, bit by bit.
 */
module Qlib {
  import opened Platform
  import opened Arith
  import opened Dyadic

  function BitOr(a: nat, b: nat): (r: nat) {
    if a == 0 && b == 0 then 0
    else 2 * BitOr(a / 2, b / 2) + (if a % 2 == 1 || b % 2 == 1 then 1 else 0)
  }

  function BitAnd(a: nat, b: nat): (r: nat) {
    if a == 0 || b == 0 then 0
    else 2 * BitAnd(a / 2, b / 2) + (if a % 2 == 1 && b % 2 == 1 then 1 else 0)
  }

  /** `a >> m` on an unsigned word: `m` halvings. */
  function Shr(a: nat, m: nat): nat {
    if m == 0 then a else Shr(a / 2, m - 1)
  }

  lemma {:induction false} ShrIsDivision(a: nat, m: nat)
    ensures Shr(a, m) == a / Pow2(m)
  {
    if m > 0 {
      ShrIsDivision(a / 2, m - 1);
      DivByDouble(a, Pow2(m - 1));
    }
  }

  lemma {:induction false} ShrHalf(x: nat, m: nat)
    ensures Shr(x, m) / 2 == Shr(x / 2, m)
  {
    if m > 0 { ShrHalf(x / 2, m - 1); }
  }

  lemma {:induction false} OrZero(a: nat)
    ensures BitOr(a, 0) == a
  {
    if a > 0 { OrZero(a / 2); }
  }

  /** `k` is the position of the highest one bit of `x`. */
  predicate Top(x: nat, k: nat) { Pow2(k) <= x < Pow2(k + 1) }

  /** The `m` highest bits of `x`, from position `k` down, are all ones. */
  predicate Ones(x: nat, k: nat, m: nat) {
    if k + 1 <= m then x == Pow2(k + 1) - 1 else k > 0 ==> Ones(x / 2, k - 1, m)
  }

  lemma {:induction false} OnesBit(x: nat, k: nat, m: nat, j: nat)
    requires Top(x, k) && Ones(x, k, m) && j <= k && k - j < m
    ensures Shr(x, j) % 2 == 1
  {
    if j > 0 {
      assert Top(x / 2, k - 1);
      OnesBit(x / 2, k - 1, m, j - 1);
    }
  }

  lemma {:induction false} ShrSmall(x: nat, m: nat)
    requires x < Pow2(m)
    ensures Shr(x, m) == 0
  {
    if m > 0 { ShrSmall(x / 2, m - 1); }
  }

  /** One line of `fixSize`: or-ing with a shift by `m` doubles the run of leading ones. */
  lemma {:induction false} SmearStep(x: nat, k: nat, m: nat)
    requires m >= 1 && Top(x, k) && Ones(x, k, m)
    ensures Top(BitOr(x, Shr(x, m)), k) && Ones(BitOr(x, Shr(x, m)), k, 2 * m)
  {
    if k + 1 <= m {
      Pow2Monotone(k + 1, m);
      ShrSmall(x, m);
      OrZero(x);
    } else {
      var y := BitOr(x, Shr(x, m));
      assert Top(x / 2, k - 1);
      SmearStep(x / 2, k - 1, m);
      ShrHalf(x, m);
      assert y / 2 == BitOr(x / 2, Shr(x / 2, m));
      if k + 1 <= 2 * m {
        OnesBit(x, k, m, m);
      }
    }
  }

  /** The body of `fixSize` after its power-of-two test, before the final increment. */
  function Smear(x: nat): nat {
    var a := BitOr(x, Shr(x, 1));
    var b := BitOr(a, Shr(a, 2));
    var c := BitOr(b, Shr(b, 4));
    var d := BitOr(c, Shr(c, 8));
    BitOr(d, Shr(d, 16))
  }

  lemma {:induction false} TopOnes(x: nat, k: nat)
    requires Top(x, k)
    ensures Ones(x, k, 1)
  {
    if k > 0 { TopOnes(x / 2, k - 1); }
  }

  lemma SmearFills(x: nat, k: nat)
    requires Top(x, k) && k < 32
    ensures Smear(x) == Pow2(k + 1) - 1
  {
    TopOnes(x, k);
    var a := BitOr(x, Shr(x, 1));
    SmearStep(x, k, 1);
    var b := BitOr(a, Shr(a, 2));
    SmearStep(a, k, 2);
    var c := BitOr(b, Shr(b, 4));
    SmearStep(b, k, 4);
    var d := BitOr(c, Shr(c, 8));
    SmearStep(c, k, 8);
    SmearStep(d, k, 16);
  }

  /** `IS_POWER_OF_2`: `x & (x - 1)` vanishes exactly on the powers of two. */
  lemma {:induction false} PowerTest(x: nat)
    requires x >= 1
    ensures BitAnd(x, x - 1) == 0 <==> IsPower(x)
  {
    if x == 1 {
      assert x == Pow2(0);
    } else if x % 2 == 1 {
      AndSelf(x / 2);
      forall k: nat ensures x != Pow2(k) {}
    } else {
      PowerTest(x / 2);
      HalfIsPower(x);
      assert (x - 1) / 2 == x / 2 - 1;
    }
  }

  ghost predicate IsPower(x: nat) { exists k: nat :: x == Pow2(k) }

  lemma HalfIsPower(x: nat)
    requires x >= 2 && x % 2 == 0
    ensures IsPower(x) <==> IsPower(x / 2)
  {
    if IsPower(x / 2) {
      var k: nat :| x / 2 == Pow2(k);
      assert x == Pow2(k + 1);
    }
    if IsPower(x) {
      var k: nat :| x == Pow2(k);
      assert x / 2 == Pow2(k - 1);
    }
  }

  lemma {:induction false} AndSelf(x: nat)
    ensures BitAnd(x, x) == x
  {
    if x > 0 { AndSelf(x / 2); }
  }

  /** The position of the highest one bit. */
  function TopOf(x: nat): (k: nat)
    requires x >= 1
    ensures Top(x, k)
  {
    if x == 1 then 0 else 1 + TopOf(x / 2)
  }

  /** The least power of two that is at least `x`. */
  predicate LeastPow2(x: nat, r: nat, k: nat) {
    r == Pow2(k) && x <= r && (k == 0 || Pow2(k - 1) < x)
  }

  lemma {:induction false} Pow2Add(a: nat, b: nat)
    ensures Pow2(a + b) == Pow2(a) * Pow2(b)
  {
    if a > 0 { Pow2Add(a - 1, b); }
  }

  lemma WordValues()
    ensures Pow2(12) == 4096 && Pow2(31) == 0x8000_0000 && Pow2(32) == U32
  {
    assert Pow2(4) == 16;
    Pow2Add(4, 4);
    Pow2Add(8, 8);
    Pow2Add(8, 4);
    Pow2Add(16, 16);
    assert Pow2(32) == 2 * Pow2(31);
  }

  /** `fixSize` on 32-bit words; requests above 2^31 wrap to 0. */
  method FixSize(size: nat) returns (r: nat)
    requires size < U32
    ensures size == 0 || size > 0x8000_0000 ==> r == 0
    ensures 1 <= size <= 0x8000_0000 ==> exists k: nat :: k <= 31 && LeastPow2(size, r, k)
  {
    assert size >= 1 ==> (size + U32 - 1) % U32 == size - 1;
    if BitAnd(size, (size + U32 - 1) % U32) == 0 {
      r := size;
      if size >= 1 { PowerKept(size); }
    } else {
      r := (Smear(size) + 1) % U32;
      SmearRounds(size);
    }
  }

  lemma PowerKept(size: nat)
    requires 1 <= size < U32 && BitAnd(size, size - 1) == 0
    ensures exists k: nat :: k <= 31 && LeastPow2(size, size, k)
    ensures size <= 0x8000_0000
  {
    WordValues();
    PowerTest(size);
    var k: nat :| size == Pow2(k);
    PowersOrdered(k, 31, size);
    Pow2Monotone(k, 31);
    assert LeastPow2(size, size, k);
  }

  lemma SmearRounds(size: nat)
    requires 1 <= size < U32 && BitAnd(size, size - 1) != 0
    ensures var r := (Smear(size) + 1) % U32;
      if size > 0x8000_0000 then r == 0 else exists k: nat :: k <= 31 && LeastPow2(size, r, k)
  {
    hide Smear, BitAnd, Pow2;
    WordValues();
    var k := TopOf(size);
    PowersOrdered(k, 31, size);
    SmearFills(size, k);
    PowerTest(size);
    assert size != Pow2(k);
    var p := Pow2(k + 1);
    if k < 31 {
      Pow2Monotone(k + 1, 31);
      assert p % U32 == p;
      assert k + 1 <= 31 && LeastPow2(size, p, k + 1);
    }
  }

  lemma PowersOrdered(k: nat, b: nat, x: nat)
    requires Pow2(k) <= x < Pow2(b + 1)
    ensures k <= b
  {
    if k > b { Pow2Monotone(b + 1, k); }
  }

  /** `log2` by repeated halving; the source loops forever on 0. */
  method Log2Loop(v: nat) returns (cnt: nat)
    requires 1 <= v < 0x1_0000
    ensures Pow2(cnt) <= v < Pow2(cnt + 1)
    ensures cnt == Log2(v)
  {
    cnt := 0;
    var val := v;
    while val != 1
      invariant val >= 1
      invariant cnt + Log2(val) == Log2(v)
      invariant Pow2(cnt) * val <= v < Pow2(cnt) * (val + 1)
      decreases val
    {
      HalveBounds(Pow2(cnt), val, v);
      cnt := cnt + 1;
      val := val / 2;
    }
  }

  lemma HalveBounds(p: nat, val: nat, v: nat)
    requires val >= 1 && p * val <= v < p * (val + 1)
    ensures (2 * p) * (val / 2) <= v < (2 * p) * (val / 2 + 1)
  {
    var h := val / 2;
    assert (2 * p) * h == p * (2 * h);
    assert (2 * p) * (h + 1) == p * (2 * h + 2);
    MulMonotone(p, 2 * h, val);
    MulMonotone(p, val + 1, 2 * h + 2);
  }
}
