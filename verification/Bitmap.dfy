/** A byte-packed bitmap and the three helpers that read and write its bits. */
module Bitmap {

  predicate ByteBit(b: bv8, k: nat)
    requires k < 8
  {
    (b >> k) & 1 != 0
  }

  /** bitmap_test on the bytes of a bitmap. */
  predicate TestBit(bytes: seq<bv8>, i: nat)
    requires i / 8 < |bytes|
  {
    ByteBit(bytes[i / 8], i % 8)
  }

  /** The first n bits. */
  function BitsOf(bytes: seq<bv8>, n: nat): (s: seq<bool>)
    requires n <= 8 * |bytes|
    ensures |s| == n
  {
    seq(n, i requires 0 <= i < n => TestBit(bytes, i))
  }

  lemma SetByte(b: bv8, k: nat, j: nat)
    requires k < 8 && j < 8
    ensures ByteBit(b | (1 << k), j) == (ByteBit(b, j) || j == k)
  {
    if k < 4 { SetLowBit(b, k, j); } else { SetHighBit(b, k, j); }
  }

  lemma SetLowBit(b: bv8, k: nat, j: nat)
    requires k < 4 && j < 8
    ensures ByteBit(b | (1 << k), j) == (ByteBit(b, j) || j == k)
  {
    if k == 0 {} else if k == 1 {} else if k == 2 {} else {}
    if j == 0 {} else if j == 1 {} else if j == 2 {} else if j == 3 {}
    else if j == 4 {} else if j == 5 {} else if j == 6 {} else {}
  }

  lemma SetHighBit(b: bv8, k: nat, j: nat)
    requires 4 <= k < 8 && j < 8
    ensures ByteBit(b | (1 << k), j) == (ByteBit(b, j) || j == k)
  {
    if k == 4 {} else if k == 5 {} else if k == 6 {} else {}
    if j == 0 {} else if j == 1 {} else if j == 2 {} else if j == 3 {}
    else if j == 4 {} else if j == 5 {} else if j == 6 {} else {}
  }

  lemma ClearByte(b: bv8, k: nat, j: nat)
    requires k < 8 && j < 8
    ensures ByteBit(b & !(1 << k), j) == (ByteBit(b, j) && j != k)
  {
    if k < 4 { ClearLowBit(b, k, j); } else { ClearHighBit(b, k, j); }
  }

  lemma ClearLowBit(b: bv8, k: nat, j: nat)
    requires k < 4 && j < 8
    ensures ByteBit(b & !(1 << k), j) == (ByteBit(b, j) && j != k)
  {
    if k == 0 {} else if k == 1 {} else if k == 2 {} else {}
    if j == 0 {} else if j == 1 {} else if j == 2 {} else if j == 3 {}
    else if j == 4 {} else if j == 5 {} else if j == 6 {} else {}
  }

  lemma ClearHighBit(b: bv8, k: nat, j: nat)
    requires 4 <= k < 8 && j < 8
    ensures ByteBit(b & !(1 << k), j) == (ByteBit(b, j) && j != k)
  {
    if k == 4 {} else if k == 5 {} else if k == 6 {} else {}
    if j == 0 {} else if j == 1 {} else if j == 2 {} else if j == 3 {}
    else if j == 4 {} else if j == 5 {} else if j == 6 {} else {}
  }

  /** The byte b with bit k set to v. */
  function ByteWith(b: bv8, k: nat, v: bool): bv8
    requires k < 8
  {
    if v then b | (1 << k) else b & !(1 << k)
  }

  lemma WithByte(b: bv8, k: nat, j: nat, v: bool)
    requires k < 8 && j < 8
    ensures ByteBit(ByteWith(b, k, v), j) == if j == k then v else ByteBit(b, j)
  {
    hide ByteBit;
    if v { SetByte(b, k, j); } else { ClearByte(b, k, j); }
  }

  lemma WriteBit(old_: seq<bv8>, new_: seq<bv8>, n: nat, i: nat, v: bool)
    requires |old_| == |new_| && n <= 8 * |old_| && i < n
    requires new_ == old_[i / 8 := ByteWith(old_[i / 8], i % 8, v)]
    ensures BitsOf(new_, n) == BitsOf(old_, n)[i := v]
  {
    hide ByteBit;
    hide ByteWith;
    forall j | 0 <= j < n
      ensures BitsOf(new_, n)[j] == BitsOf(old_, n)[i := v][j]
    {
      WithByte(old_[i / 8], i % 8, j % 8, v);
    }
  }
}
