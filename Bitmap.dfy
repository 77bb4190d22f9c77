/** Allocation bitmaps as .NET's BitArray(byte[]) sees them: bit `i` is bit
    `i % 8` (least significant first) of byte `i / 8`. */
module Bitmap {
  import opened Bytes

  function Pow2(k: nat): (r: nat)
    ensures r > 0
  {
    if k == 0 then 1 else 2 * Pow2(k - 1)
  }

  /** Bit `a` (0 = least significant) of a number. */
  predicate NatBit(x: nat, a: nat)
  {
    if a == 0 then x % 2 == 1 else NatBit(x / 2, a - 1)
  }

  /** Zero has no bit set. */
  lemma {:induction false} ZeroHasNoBits(a: nat)
    ensures !NatBit(0, a)
  {
    if a > 0 {
      ZeroHasNoBits(a - 1);
    }
  }

  /** `x` with bit `a` set, that is `x | (1 << a)`. */
  function SetNatBit(x: nat, a: nat): nat
  {
    if a == 0 then (if x % 2 == 1 then x else x + 1)
    else 2 * SetNatBit(x / 2, a - 1) + x % 2
  }

  /** Setting bit `a` of a `k`-bit number sets that bit, changes no other bit and
      stays within `k` bits. */
  lemma {:induction false} SetNatBitProps(x: nat, a: nat, k: nat)
    requires x < Pow2(k) && a < k
    ensures SetNatBit(x, a) < Pow2(k)
    ensures NatBit(SetNatBit(x, a), a)
    ensures forall b :: b != a ==> NatBit(SetNatBit(x, a), b) == NatBit(x, b)
  {
    var r := SetNatBit(x, a);
    if a == 0 {
      assert forall b :: b > 0 ==> NatBit(r, b) == NatBit(r / 2, b - 1);
      assert r / 2 == x / 2;
    } else {
      SetNatBitProps(x / 2, a - 1, k - 1);
      assert r / 2 == SetNatBit(x / 2, a - 1);
      assert r % 2 == x % 2;
      forall b: nat | b != a
        ensures NatBit(r, b) == NatBit(x, b)
      {
        if b > 0 {
          assert NatBit(r, b) == NatBit(r / 2, b - 1);
        }
      }
    }
  }

  /** The byte with bit `a` set. */
  function SetByteBit(x: byte, a: nat): (r: byte)
    requires a < 8
    ensures NatBit(r, a)
    ensures forall b :: b != a ==> NatBit(r, b) == NatBit(x, b)
  {
    SetNatBitProps(x, a, 8);
    SetNatBit(x, a)
  }

  /** BitArray.Get: is bit `i` of the bitmap set? */
  predicate Bit(bm: seq<byte>, i: int)
    requires 0 <= i < 8 * |bm|
  {
    NatBit(bm[i / 8], i % 8)
  }

  /** BitArray.Set(i, true) followed by BitArray.CopyTo. */
  function SetBit(bm: seq<byte>, i: int): (r: seq<byte>)
    requires 0 <= i < 8 * |bm|
    ensures |r| == |bm|
    ensures Bit(r, i)
    ensures forall j :: 0 <= j < 8 * |bm| && j != i ==> Bit(r, j) == Bit(bm, j)
  {
    var r := bm[i / 8 := SetByteBit(bm[i / 8], i % 8)];
    assert forall j :: 0 <= j < 8 * |bm| && j / 8 != i / 8 ==> r[j / 8] == bm[j / 8];
    r
  }

  /** Every bit below `n` is set. */
  ghost predicate AllSetBelow(bm: seq<byte>, n: int)
    requires n <= 8 * |bm|
  {
    forall j :: 0 <= j < n ==> Bit(bm, j)
  }

  /** The first-fit choice: the lowest clear bit of `bm`, or -1 when every bit is set. */
  function FirstClear(bm: seq<byte>, from: nat): (r: int)
    requires from <= 8 * |bm|
    ensures r == -1 || (from <= r < 8 * |bm| && !Bit(bm, r))
    ensures r == -1 ==> forall j :: from <= j < 8 * |bm| ==> Bit(bm, j)
    ensures r != -1 ==> forall j :: from <= j < r ==> Bit(bm, j)
    decreases 8 * |bm| - from
  {
    if from == 8 * |bm| then -1
    else if !Bit(bm, from) then from
    else FirstClear(bm, from + 1)
  }

  /** The scan loop that FindFreeBlock and NewNode each run over a bitmap block:
      walk the bits from 0 and stop at the first clear one. */
  method FirstFreeBit(bm: seq<byte>) returns (freeIndex: int)
    ensures freeIndex == -1 <==> AllSetBelow(bm, 8 * |bm|)
    ensures freeIndex != -1 ==> 0 <= freeIndex < 8 * |bm| && !Bit(bm, freeIndex)
    ensures freeIndex != -1 ==> AllSetBelow(bm, freeIndex)
    ensures freeIndex == FirstClear(bm, 0)
  {
    freeIndex := -1;
    var index := 0;
    while index < 8 * |bm| && freeIndex == -1
      invariant 0 <= index <= 8 * |bm|
      invariant freeIndex == -1 ==> AllSetBelow(bm, index)
      invariant freeIndex != -1 ==> freeIndex == index - 1 && !Bit(bm, freeIndex) && AllSetBelow(bm, freeIndex)
    {
      if !Bit(bm, index) {
        freeIndex := index;
      }
      index := index + 1;
    }
    if freeIndex != -1 {
      assert !AllSetBelow(bm, 8 * |bm|) by {
        assert !Bit(bm, freeIndex);
      }
    }
  }

  /** Setting the first clear bit: the bitmap afterwards has all bits up to and
      including the chosen one set, so the next scan returns a strictly larger index. */
  lemma FirstFitAdvances(bm: seq<byte>)
    requires FirstClear(bm, 0) != -1
    ensures FirstClear(SetBit(bm, FirstClear(bm, 0)), 0) > FirstClear(bm, 0)
      || FirstClear(SetBit(bm, FirstClear(bm, 0)), 0) == -1
  {
  }
}
