/** Single bits of a byte. */
module Bits {
  function Mask(k: nat): bv8
    requires k < 8
  {
    1 << k
  }

  predicate BitAt(b: bv8, k: nat)
    requires k < 8
  {
    b & Mask(k) != 0
  }

  lemma Masks()
    ensures Mask(0) == 0x01 && Mask(1) == 0x02 && Mask(2) == 0x04 && Mask(3) == 0x08
    ensures Mask(4) == 0x10 && Mask(5) == 0x20 && Mask(6) == 0x40 && Mask(7) == 0x80
  {
  }

  lemma SetBit(b: bv8, k: nat, j: nat)
    requires k < 8 && j < 8
    ensures BitAt(b | Mask(k), j) <==> j == k || BitAt(b, j)
  {
  }

  lemma ClearBit(b: bv8, k: nat, j: nat)
    requires k < 8 && j < 8
    ensures BitAt(b & !Mask(k), j) <==> j != k && BitAt(b, j)
  {
  }

  /** Bytes with the same bits are the same byte. */
  lemma SameBits(a: bv8, b: bv8)
    requires forall k: nat | k < 8 :: BitAt(a, k) <==> BitAt(b, k)
    ensures a == b
  {
    Masks();
    assert BitAt(a, 0) == BitAt(b, 0) && BitAt(a, 1) == BitAt(b, 1);
    assert BitAt(a, 2) == BitAt(b, 2) && BitAt(a, 3) == BitAt(b, 3);
    assert BitAt(a, 4) == BitAt(b, 4) && BitAt(a, 5) == BitAt(b, 5);
    assert BitAt(a, 6) == BitAt(b, 6) && BitAt(a, 7) == BitAt(b, 7);
  }

  /** Bitmaps with the same bits are the same bytes. */
  lemma SameBytes(a: seq<bv8>, b: seq<bv8>)
    requires |a| == |b|
    requires forall f | 0 <= f < 8 * |a| :: BitAt(a[f / 8], f % 8) <==> BitAt(b[f / 8], f % 8)
    ensures a == b
  {
    forall i | 0 <= i < |a| ensures a[i] == b[i] {
      forall k: nat | k < 8 ensures BitAt(a[i], k) <==> BitAt(b[i], k) {
        var f := 8 * i + k;
        assert f / 8 == i && f % 8 == k;
      }
      SameBits(a[i], b[i]);
    }
  }
}
