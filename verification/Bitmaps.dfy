/** Bit sets packed into bytes, least significant bit first. */
module Bitmaps {
  import opened Bytes

  function Pow2(n: nat): (p: nat)
    ensures p >= 1
  {
    if n == 0 then 1 else 2 * Pow2(n - 1)
  }

  /** `(b >> k) & 1` */
  predicate BitOf(b: nat, k: nat) {
    if k == 0 then b % 2 == 1 else BitOf(b / 2, k - 1)
  }

  /** `b | (1 << k)` */
  function WithBit(b: nat, k: nat): (r: nat) {
    if k == 0 then b - b % 2 + 1 else 2 * WithBit(b / 2, k - 1) + b % 2
  }

  lemma {:induction false} WithBitExact(b: nat, k: nat, j: nat)
    ensures BitOf(WithBit(b, k), j) <==> j == k || BitOf(b, j)
  {
    if k == 0 {
      assert (b - b % 2 + 1) / 2 == b / 2;
    } else if j > 0 {
      WithBitExact(b / 2, k - 1, j - 1);
      assert (2 * WithBit(b / 2, k - 1) + b % 2) / 2 == WithBit(b / 2, k - 1);
    }
  }

  lemma {:induction false} WithBitBound(b: nat, k: nat, n: nat)
    requires k < n && b < Pow2(n)
    ensures WithBit(b, k) < Pow2(n)
  {
    if k > 0 {
      WithBitBound(b / 2, k - 1, n - 1);
    } else {
      assert Pow2(n) == 2 * Pow2(n - 1);
    }
  }

  lemma ByteRange()
    ensures Pow2(8) == 256
  {
    assert Pow2(3) == 2 * Pow2(2) && Pow2(2) == 2 * Pow2(1);
    assert Pow2(6) == 2 * Pow2(5) && Pow2(5) == 2 * Pow2(4) && Pow2(4) == 2 * Pow2(3);
    assert Pow2(8) == 2 * Pow2(7) && Pow2(7) == 2 * Pow2(6);
  }

  /** `bitmap_has_bit`: bits past the end are clear. */
  predicate HasBit(bitmap: bytes, bit: nat) {
    bit / 8 < |bitmap| && BitOf(bitmap[bit / 8], bit % 8)
  }

  /** `bitmap_byte_length` */
  function ByteLength(bits: nat): (n: nat)
    ensures bits <= 8 * n < bits + 8
  {
    (bits + 7) / 8
  }

  function OrBit(b: byte, k: nat): byte
    requires k < 8
  {
    WithBitBound(b, k, 8);
    ByteRange();
    WithBit(b, k)
  }

  function SetBit(bitmap: bytes, bit: nat): (r: bytes)
    requires bit / 8 < |bitmap|
    ensures |r| == |bitmap|
  {
    bitmap[bit / 8 := OrBit(bitmap[bit / 8], bit % 8)]
  }

  /** Setting a bit sets that bit and no other. */
  lemma SetBitExact(bitmap: bytes, bit: nat, other: nat)
    requires bit / 8 < |bitmap|
    ensures HasBit(SetBit(bitmap, bit), other) <==> other == bit || HasBit(bitmap, other)
  {
    if other / 8 == bit / 8 {
      WithBitExact(bitmap[bit / 8], bit % 8, other % 8);
    }
  }

  lemma ZeroBitsClear(n: nat, bit: nat)
    ensures !HasBit(ZeroBytes(n), bit)
  {
    ZeroBits(bit % 8);
  }

  lemma ZeroBits(k: nat)
    ensures !BitOf(0, k)
  {
  }
}
