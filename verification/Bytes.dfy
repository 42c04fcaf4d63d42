/** Bytes, little-endian integers and the two result types shared by every module. */
module Bytes {

  type Byte = x: int | 0 <= x < 256

  datatype Option<+T> = None | Some(value: T)

  datatype Result<+T, +E> = Ok(value: T) | Err(error: E)

  /** A string constant of the program text. */
  function Ascii(s: string): (b: seq<Byte>)
    requires forall i | 0 <= i < |s| :: s[i] as int < 128
    ensures |b| == |s| && forall i | 0 <= i < |s| :: b[i] == s[i] as int
  {
    seq(|s|, i requires 0 <= i < |s| => s[i] as int)
  }

  lemma Associate<A>(a: seq<A>, b: seq<A>, c: seq<A>)
    ensures (a + b) + c == a + (b + c)
  {
  }

  lemma EmptyLeft<A>(a: seq<A>)
    ensures [] + a == a
  {
  }

  lemma TakeDrop<A>(a: seq<A>, n: nat)
    requires n <= |a|
    ensures a == a[..n] + a[n..]
  {
  }

  lemma HeadTail<A>(a: seq<A>)
    requires a != []
    ensures a == [a[0]] + a[1..]
  {
  }

  lemma SliceOfSlice<A>(a: seq<A>, from: nat, to: nat, i: nat, j: nat)
    requires from <= to <= |a| && i <= j <= to - from
    ensures a[from..to][i..j] == a[from + i..from + j]
  {
    forall k | 0 <= k < j - i
      ensures a[from..to][i..j][k] == a[from + i..from + j][k]
    {
    }
  }

  function Pow256(width: nat): (p: nat)
    ensures p > 0
  {
    if width == 0 then 1 else 256 * Pow256(width - 1)
  }

  /** The `width` low bytes of `n`, least significant first. */
  function LE(n: nat, width: nat): (r: seq<Byte>)
    ensures |r| == width
  {
    if width == 0 then [] else [n % 256] + LE(n / 256, width - 1)
  }

  function FromLE(b: seq<Byte>): (n: nat)
  {
    if b == [] then 0 else b[0] + 256 * FromLE(b[1..])
  }

  lemma {:induction false} FromLEInvertsLE(n: nat, width: nat)
    requires n < Pow256(width)
    ensures FromLE(LE(n, width)) == n
  {
    if width > 0 {
      FromLEInvertsLE(n / 256, width - 1);
      assert LE(n, width)[1..] == LE(n / 256, width - 1);
    }
  }

  lemma {:induction false} LEInvertsFromLE(b: seq<Byte>)
    ensures FromLE(b) < Pow256(|b|)
    ensures LE(FromLE(b), |b|) == b
  {
    if b != [] {
      LEInvertsFromLE(b[1..]);
      assert FromLE(b) / 256 == FromLE(b[1..]) && FromLE(b) % 256 == b[0];
    }
  }

  lemma ShiftTwice(n: nat)
    ensures n / 256 / 256 == n / 0x1_0000
  {
  }

  lemma ShiftThrice(n: nat)
    ensures n / 256 / 256 / 256 == n / 0x100_0000
  {
    ShiftTwice(n);
    assert n / 0x1_0000 / 256 == n / 0x100_0000;
  }

  /** The three-byte length field written by shifts. */
  lemma LE3(n: nat)
    ensures LE(n, 3) == [n % 256, n / 0x100 % 256, n / 0x1_0000 % 256]
  {
    ShiftTwice(n);
    assert LE(n / 256 / 256, 1) == [n / 256 / 256 % 256] + LE(n / 256 / 256 / 256, 0);
  }

  lemma LE4(n: nat)
    ensures LE(n, 4) == [n % 256, n / 0x100 % 256, n / 0x1_0000 % 256, n / 0x100_0000 % 256]
  {
    ShiftThrice(n);
    LE3(n / 256);
    assert n / 256 / 0x100 == n / 0x1_0000;
  }

  function Pow2(k: nat): (p: nat)
    ensures p > 0
  {
    if k == 0 then 1 else 2 * Pow2(k - 1)
  }

  /** `b >> k & 1` is one. */
  predicate Bit(b: nat, k: nat)
  {
    if k == 0 then b % 2 == 1 else Bit(b / 2, k - 1)
  }

  /** `b | 1 << k`, bit by bit from the low end. */
  function SetBit(b: nat, k: nat): (r: nat)
  {
    if k == 0 then b / 2 * 2 + 1 else 2 * SetBit(b / 2, k - 1) + b % 2
  }

  lemma {:induction false} SetBitAt(b: nat, k: nat, j: nat)
    ensures Bit(SetBit(b, k), j) == (j == k || Bit(b, j))
  {
    var r := SetBit(b, k);
    if k == 0 {
      assert r % 2 == 1 && r / 2 == b / 2;
    } else {
      assert r % 2 == b % 2 && r / 2 == SetBit(b / 2, k - 1);
      if j > 0 {
        SetBitAt(b / 2, k - 1, j - 1);
      }
    }
  }

  lemma {:induction false} SetBitFits(b: nat, k: nat, width: nat)
    requires b < Pow2(width) && k < width
    ensures SetBit(b, k) < Pow2(width)
  {
    if k > 0 {
      SetBitFits(b / 2, k - 1, width - 1);
    }
  }

  lemma SetBitByte(b: Byte, k: nat)
    requires k < 8
    ensures SetBit(b, k) < 256
  {
    assert Pow2(4) == 16;
    assert Pow2(8) == 256;
    SetBitFits(b, k, 8);
  }

  lemma {:induction false} NoBits(k: nat)
    ensures !Bit(0, k)
  {
    if k > 0 {
      NoBits(k - 1);
    }
  }
}
