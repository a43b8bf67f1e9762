/**
 The block bitmap (kernel/fs/ext2/block.c:12-32, kernel/include/lib/qlib.h:44-51):
 bytes with `set_bit`, `clear_bit` and the search for the first clear bit.
 */
module Bitmap {
  import opened Dyadic
  import opened Qlib

  type Byte = b: nat | b < 256

  /** Bit `k` of a word, bit 0 being the least significant. */
  predicate Bit(b: nat, k: nat) {
    if k == 0 then b % 2 == 1 else Bit(b / 2, k - 1)
  }

  lemma {:induction false} ZeroBits(k: nat)
    ensures !Bit(0, k)
  {
    if k > 0 { ZeroBits(k - 1); }
  }

  lemma {:induction false} OrBits(a: nat, b: nat, k: nat)
    ensures Bit(BitOr(a, b), k) <==> Bit(a, k) || Bit(b, k)
  {
    if a == 0 && b == 0 {
      ZeroBits(k);
    } else {
      assert BitOr(a, b) / 2 == BitOr(a / 2, b / 2);
      if k > 0 { OrBits(a / 2, b / 2, k - 1); }
    }
  }

  lemma {:induction false} AndBits(a: nat, b: nat, k: nat)
    ensures Bit(BitAnd(a, b), k) <==> Bit(a, k) && Bit(b, k)
  {
    if a == 0 || b == 0 {
      ZeroBits(k);
    } else {
      assert BitAnd(a, b) / 2 == BitAnd(a / 2, b / 2);
      if k > 0 { AndBits(a / 2, b / 2, k - 1); }
    }
  }

  lemma {:induction false} PowerBits(j: nat, k: nat)
    ensures Bit(Pow2(j), k) <==> j == k
  {
    if j == 0 {
      if k > 0 { ZeroBits(k - 1); }
    } else if k > 0 {
      PowerBits(j - 1, k - 1);
    }
  }

  /** The mask `~(1 << j)` on `n` bits. */
  lemma {:induction false} MaskBits(n: nat, j: nat, k: nat)
    requires j < n && k < n
    ensures Pow2(j) < Pow2(n)
    ensures Bit(Pow2(n) - 1 - Pow2(j), k) <==> j != k
  {
    Pow2Monotone(j, n);
    if k > 0 {
      if j == 0 {
        assert (Pow2(n) - 1 - Pow2(0)) / 2 == Pow2(n - 1) - 1;
        AllOnes(n - 1, k - 1);
      } else {
        MaskBits(n - 1, j - 1, k - 1);
        assert (Pow2(n) - 1 - Pow2(j)) / 2 == Pow2(n - 1) - 1 - Pow2(j - 1);
      }
    }
  }

  lemma {:induction false} AllOnes(n: nat, k: nat)
    requires k < n
    ensures Bit(Pow2(n) - 1, k)
  {
    if k > 0 { AllOnes(n - 1, k - 1); }
  }

  lemma {:induction false} OrBound(a: nat, b: nat, n: nat)
    requires a < Pow2(n) && b < Pow2(n)
    ensures BitOr(a, b) < Pow2(n)
  {
    if n > 0 { OrBound(a / 2, b / 2, n - 1); }
  }

  lemma {:induction false} AndBound(a: nat, b: nat)
    ensures BitAnd(a, b) <= a
  {
    if a > 0 && b > 0 { AndBound(a / 2, b / 2); }
  }

  lemma ByteWidth()
    ensures Pow2(8) == 256
  {
    Pow2Add(4, 4);
    assert Pow2(4) == 16;
  }

  lemma SetBitSpec(b: Byte, n: nat)
    requires n < 8
    ensures BitOr(b, Pow2(n)) < 256
    ensures forall k: nat :: k < 8 ==> (Bit(BitOr(b, Pow2(n)), k) <==> Bit(b, k) || k == n)
  {
    hide BitOr, Bit, Pow2;
    ByteWidth();
    MaskBits(8, n, n);
    OrBound(b, Pow2(n), 8);
    forall k: nat | k < 8 ensures Bit(BitOr(b, Pow2(n)), k) <==> Bit(b, k) || k == n {
      OrBits(b, Pow2(n), k);
      PowerBits(n, k);
    }
  }

  lemma ClearBitSpec(b: Byte, n: nat)
    requires n < 8
    ensures Pow2(n) < 256 && BitAnd(b, 255 - Pow2(n)) < 256
    ensures forall k: nat :: k < 8 ==> (Bit(BitAnd(b, 255 - Pow2(n)), k) <==> Bit(b, k) && k != n)
  {
    hide BitAnd, Bit, Pow2;
    ByteWidth();
    MaskBits(8, n, n);
    AndBound(b, 255 - Pow2(n));
    forall k: nat | k < 8 ensures Bit(BitAnd(b, 255 - Pow2(n)), k) <==> Bit(b, k) && k != n {
      AndBits(b, 255 - Pow2(n), k);
      MaskBits(8, n, k);
      assert Pow2(8) - 1 - Pow2(n) == 255 - Pow2(n);
    }
  }

  function SetBit(b: Byte, n: nat): (r: Byte)
    requires n < 8
    ensures forall k: nat :: k < 8 ==> (Bit(r, k) <==> Bit(b, k) || k == n)
  {
    SetBitSpec(b, n);
    BitOr(b, Pow2(n))
  }

  function ClearBit(b: Byte, n: nat): (r: Byte)
    requires n < 8
    ensures forall k: nat :: k < 8 ==> (Bit(r, k) <==> Bit(b, k) && k != n)
  {
    ClearBitSpec(b, n);
    BitAnd(b, 255 - Pow2(n))
  }

  /** `get_clear_bit`: the lowest clear bit of a byte. */
  method GetClearBit(ch: Byte) returns (no: nat)
    requires ch != 0xff
    ensures no < 8 && !Bit(ch, no) && forall k: nat :: k < no ==> Bit(ch, k)
  {
    no := 0;
    var c: nat := ch;
    ByteWidth();
    while c % 2 == 1
      invariant no <= 8 && c == Shr(ch, no)
      invariant c < Pow2(8 - no) - 1
      invariant forall k: nat :: k < no ==> Bit(ch, k)
      decreases c
    {
      BitOfShr(ch, no);
      ShrStep(ch, no);
      c := c / 2;
      no := no + 1;
    }
    BitOfShr(ch, no);
  }

  lemma {:induction false} BitOfShr(b: nat, k: nat)
    ensures Bit(b, k) <==> Shr(b, k) % 2 == 1
  {
    if k > 0 { BitOfShr(b / 2, k - 1); }
  }

  lemma {:induction false} ShrStep(b: nat, k: nat)
    ensures Shr(b, k + 1) == Shr(b, k) / 2
  {
    if k > 0 { ShrStep(b / 2, k - 1); }
  }

  /** Bit `i` of a bitmap. */
  predicate Used(map_: seq<Byte>, i: nat) {
    i / 8 < |map_| && Bit(map_[i / 8], i % 8)
  }

  /** The blocks a bitmap marks as allocated. */
  ghost function UsedSet(map_: seq<Byte>): (s: set<nat>)
    ensures forall i: nat :: i in s <==> Used(map_, i)
  {
    set i: nat | i < 8 * |map_| && Used(map_, i)
  }

  lemma {:induction false} FullByte(b: Byte, k: nat)
    requires k < 8
    ensures b == 0xff ==> Bit(b, k)
  {
    ByteWidth();
    if b == 0xff { AllOnes(8, k); }
  }

  /** `set_next_zero_bit` over the first `max` bytes; -1 when they are all full. */
  method SetNextZeroBit(bytes: array<Byte>, max: nat) returns (r: int)
    requires max <= bytes.Length
    modifies bytes
    ensures r == -1 ==> bytes[..] == old(bytes[..]) && forall i: nat :: i < 8 * max ==> Used(bytes[..], i)
    ensures r != -1 ==> 0 <= r < 8 * max && !Used(old(bytes[..]), r)
    ensures r != -1 ==> forall i: nat :: i < r ==> Used(old(bytes[..]), i)
    ensures r != -1 ==> UsedSet(bytes[..]) == UsedSet(old(bytes[..])) + {r}
  {
    var i := 0;
    while i < max
      invariant 0 <= i <= max && bytes[..] == old(bytes[..])
      invariant forall j: nat :: j < 8 * i ==> Used(bytes[..], j)
    {
      if bytes[i] != 0xff {
        var n := GetClearBit(bytes[i]);
        r := n + 8 * i;
        SetInMap(bytes[..], r);
        bytes[i] := SetBit(bytes[i], n);
        return;
      }
      forall j: nat | 8 * i <= j < 8 * (i + 1) ensures Used(bytes[..], j) {
        FullByte(bytes[i], j % 8);
      }
      i := i + 1;
    }
    r := -1;
  }

  lemma SetInMap(map_: seq<Byte>, i: nat)
    requires i / 8 < |map_|
    ensures UsedSet(map_[i / 8 := SetBit(map_[i / 8], i % 8)]) == UsedSet(map_) + {i}
  {
    var m := map_[i / 8 := SetBit(map_[i / 8], i % 8)];
    forall j: nat ensures Used(m, j) <==> Used(map_, j) || j == i {
      if j / 8 == i / 8 { assert j == 8 * (j / 8) + j % 8; }
    }
  }

  lemma ClearInMap(map_: seq<Byte>, i: nat)
    requires i / 8 < |map_|
    ensures UsedSet(map_[i / 8 := ClearBit(map_[i / 8], i % 8)]) == UsedSet(map_) - {i}
  {
    var m := map_[i / 8 := ClearBit(map_[i / 8], i % 8)];
    forall j: nat ensures Used(m, j) <==> Used(map_, j) && j != i {
      if j / 8 == i / 8 { assert j == 8 * (j / 8) + j % 8; }
    }
  }
}
