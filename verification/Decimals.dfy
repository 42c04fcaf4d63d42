/** Decimal text of integers. */
module Decimals {
  import opened Bytes

  const MINUS: Byte := 0x2d

  function Digit(d: nat): Byte
    requires d < 10
  {
    0x30 + d
  }

  /** Without leading zeros. */
  function Decimal(n: nat): (s: seq<Byte>)
    ensures s != [] && forall i | 0 <= i < |s| :: 0x30 <= s[i] <= 0x39
    ensures |s| > 1 ==> s[0] != 0x30
  {
    if n < 10 then [Digit(n)] else Decimal(n / 10) + [Digit(n % 10)]
  }

  /** The number that a run of digits denotes. */
  function Denoted(s: seq<Byte>): int {
    if s == [] then 0 else 10 * Denoted(s[..|s| - 1]) + s[|s| - 1] - 0x30
  }

  lemma {:induction false} DecimalDenotes(n: nat)
    ensures Denoted(Decimal(n)) == n
  {
    if n >= 10 {
      DecimalDenotes(n / 10);
      assert Decimal(n)[..|Decimal(n)| - 1] == Decimal(n / 10);
    }
  }

  /** strconv.AppendInt(_, i, 10) */
  function Signed(i: int): (s: seq<Byte>)
    ensures s != []
  {
    if i < 0 then [MINUS] + Decimal(-i) else Decimal(i)
  }

  function DenotedSigned(s: seq<Byte>): int {
    if s != [] && s[0] == MINUS then -Denoted(s[1..]) else Denoted(s)
  }

  lemma SignedDenotes(i: int)
    ensures DenotedSigned(Signed(i)) == i
  {
    if i < 0 {
      DecimalDenotes(-i);
      assert Signed(i)[1..] == Decimal(-i);
    } else {
      DecimalDenotes(i);
    }
  }

  lemma {:induction false} DecimalLength(n: nat, k: nat, bound: nat)
    requires k > 0 && n < bound && bound == Pow10(k)
    ensures |Decimal(n)| <= k
  {
    if n >= 10 {
      DecimalLength(n / 10, k - 1, bound / 10);
    }
  }

  function Pow10(k: nat): (t: nat)
    ensures t > 0
  {
    if k == 0 then 1 else 10 * Pow10(k - 1)
  }

  /** uint64ToString: digits from the right of a twenty-byte array. */
  method Uint64ToString(n0: nat) returns (s: seq<Byte>)
    requires n0 < 0x1_0000_0000_0000_0000
    ensures s == Decimal(n0)
  {
    var a := new Byte[20];
    var n, i := n0, 20;
    TwentyDigits();
    DecimalLength(n0, 20, Pow10(20));
    assert a[i..] == [];
    assert Decimal(n) + a[i..] == Decimal(n0);
    while n >= 10
      invariant 0 < i <= 20 && |Decimal(n)| <= i
      invariant Decimal(n) + a[i..] == Decimal(n0)
      decreases n
    {
      i := i - 1;
      var q := n / 10;
      ghost var tail := a[i + 1..];
      a[i] := n - q * 10 + 0x30;
      assert a[i..] == [Digit(n % 10)] + tail;
      Associate(Decimal(q), [Digit(n % 10)], tail);
      n := q;
    }
    i := i - 1;
    ghost var tail := a[i + 1..];
    a[i] := n + 0x30;
    assert a[i..] == [Digit(n)] + tail;
    s := a[i..];
  }

  lemma TwentyDigits()
    ensures Pow10(20) == 100_000_000_000_000_000_000
  {
    assert Pow10(5) == 100_000;
    assert Pow10(10) == 10_000_000_000;
    assert Pow10(15) == 1_000_000_000_000_000;
  }
}
