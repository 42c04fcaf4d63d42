/** Null bitmaps: one bit per value, from a given bit offset on. */
module Bitmaps {
  import opened Bytes

  function BitmapLen(n: nat, offset: nat): nat {
    (n + 7 + offset) / 8
  }

  function Zeros(n: nat): (s: seq<Byte>)
    ensures |s| == n && forall i | 0 <= i < n :: s[i] == 0
  {
    if n == 0 then [] else [0] + Zeros(n - 1)
  }

  /** The bitmap once the bits of the first `k` values are set. */
  function Bitmap(nulls: seq<bool>, offset: nat, k: nat): (m: seq<Byte>)
    requires k <= |nulls|
    ensures |m| == BitmapLen(|nulls|, offset)
    decreases k
  {
    if k == 0 then Zeros(BitmapLen(|nulls|, offset))
    else
      var m := Bitmap(nulls, offset, k - 1);
      var bit := k - 1 + offset;
      SetBitByte(m[bit / 8], bit % 8);
      if nulls[k - 1] then m[bit / 8 := SetBit(m[bit / 8], bit % 8)] else m
  }

  lemma {:induction false} BitmapBits(nulls: seq<bool>, offset: nat, k: nat, j: nat)
    requires k <= |nulls| && j < |nulls|
    ensures (j + offset) / 8 < BitmapLen(|nulls|, offset)
    ensures Bit(Bitmap(nulls, offset, k)[(j + offset) / 8], (j + offset) % 8) <==> j < k && nulls[j]
    decreases k
  {
    if k == 0 {
      NoBits((j + offset) % 8);
    } else {
      BitmapBits(nulls, offset, k - 1, j);
      var m, bit := Bitmap(nulls, offset, k - 1), k - 1 + offset;
      SetBitByte(m[bit / 8], bit % 8);
      if (j + offset) / 8 == bit / 8 {
        SetBitAt(m[bit / 8], bit % 8, (j + offset) % 8);
        assert (j + offset) % 8 == bit % 8 <==> j + offset == bit;
      }
    }
  }
}
