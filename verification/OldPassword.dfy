/** The pre-4.1 password scramble: a hash on 32-bit words and a generator whose arithmetic
    never overflows them. */
module OldPassword {
  import opened Bytes

  const TWO_32: int := 0x1_0000_0000
  const MAX_VAL: int := 0x3fff_ffff   // myRndMaxVal

  type Word = x: int | 0 <= x < TWO_32

  /** Bitwise exclusive or. */
  function Xor(a: nat, b: nat): (r: nat)
    decreases a + b
  {
    if a == 0 && b == 0 then 0
    else 2 * Xor(a / 2, b / 2) + (a % 2 + b % 2) % 2
  }

  lemma {:induction false} XorFits(a: nat, b: nat, width: nat)
    requires a < Pow2(width) && b < Pow2(width)
    ensures Xor(a, b) < Pow2(width)
    decreases width
  {
    if width > 0 && (a != 0 || b != 0) {
      XorFits(a / 2, b / 2, width - 1);
    }
  }

  /** Bits above the mask are untouched. */
  lemma {:induction false} XorBelow(high: nat, a: nat, b: nat, width: nat)
    requires a < Pow2(width) && b < Pow2(width)
    ensures Xor(high * Pow2(width) + a, b) == high * Pow2(width) + Xor(a, b)
    decreases width
  {
    if width == 0 {
      XorZero(high);
    } else {
      var p := Pow2(width - 1);
      var x := high * Pow2(width) + a;
      Halve(high, p, a);
      XorBelow(high, a / 2, b / 2, width - 1);
    }
  }

  lemma Halve(high: nat, p: nat, a: nat)
    ensures (high * (2 * p) + a) / 2 == high * p + a / 2 && (high * (2 * p) + a) % 2 == a % 2
    ensures high * (2 * p) == 2 * (high * p)
  {
    assert high * (2 * p) == 2 * (high * p);
  }

  lemma {:induction false} XorZero(a: nat)
    ensures Xor(a, 0) == a
  {
    if a > 0 { XorZero(a / 2); }
  }

  lemma PowersOfTwo()
    ensures Pow2(5) == 32 && Pow2(8) == 256 && Pow2(32) == TWO_32
  {
    assert Pow2(4) == 16;
    assert Pow2(8) == 256;
    assert Pow2(12) == 4096;
    assert Pow2(16) == 0x1_0000;
    assert Pow2(20) == 0x10_0000;
    assert Pow2(24) == 0x100_0000;
    assert Pow2(28) == 0x1000_0000;
  }

  function XorWord(a: Word, b: Word): Word {
    PowersOfTwo();
    XorFits(a, b, 32);
    Xor(a, b)
  }

  function Wrap(x: nat): Word {
    x % TWO_32
  }

  // ---- Hashing ----

  datatype Hash = Hash(w0: Word, w1: Word, add: Word)

  const HASH_INIT: Hash := Hash(1345345333, 0x12345671, 7)

  predicate IsBlank(c: Byte) {
    c == 0x20 || c == 0x09
  }

  /** One byte of the password; blanks leave the hash alone. */
  function HashByte(h: Hash, c: Byte): Hash {
    if IsBlank(c) then h
    else
      var w0 := XorWord(h.w0, Wrap(Wrap(Wrap(h.w0 % 64 + h.add) * c) + Wrap(h.w0 * 256)));
      var w1 := Wrap(h.w1 + XorWord(Wrap(h.w1 * 256), w0));
      Hash(w0, w1, Wrap(h.add + c))
  }

  function HashAll(h: Hash, password: seq<Byte>): Hash
    decreases |password|
  {
    if password == [] then h else HashByte(HashAll(h, password[..|password| - 1]), password[|password| - 1])
  }

  /** pwHash, with the sign bits removed. */
  method PwHash(password: seq<Byte>) returns (w0: Word, w1: Word)
    ensures w0 == HashAll(HASH_INIT, password).w0 % 0x8000_0000
    ensures w1 == HashAll(HASH_INIT, password).w1 % 0x8000_0000
    ensures w0 < 0x8000_0000 && w1 < 0x8000_0000
  {
    hide XorWord, Wrap;
    var add: Word := 7;
    w0, w1 := 1345345333, 0x12345671;
    var i := 0;
    while i < |password|
      invariant 0 <= i <= |password|
      invariant Hash(w0, w1, add) == HashAll(HASH_INIT, password[..i])
    {
      var c := password[i];
      assert password[..i + 1][..i] == password[..i];
      i := i + 1;
      if c == 0x20 || c == 0x09 { continue; }
      w0 := XorWord(w0, Wrap(Wrap(Wrap(w0 % 64 + add) * c) + Wrap(w0 * 256)));
      w1 := Wrap(w1 + XorWord(Wrap(w1 * 256), w0));
      add := Wrap(add + c);
    }
    assert password[..i] == password;
    w0, w1 := w0 % 0x8000_0000, w1 % 0x8000_0000;
  }

  function WithoutBlanks(s: seq<Byte>): seq<Byte> {
    if s == [] then []
    else WithoutBlanks(s[..|s| - 1]) + (if IsBlank(s[|s| - 1]) then [] else [s[|s| - 1]])
  }

  /** Blanks anywhere in a password do not change its hash. */
  lemma {:induction false} BlanksDoNotCount(h: Hash, password: seq<Byte>)
    ensures HashAll(h, WithoutBlanks(password)) == HashAll(h, password)
    decreases |password|
  {
    hide XorWord, Wrap;
    if password != [] {
      var front, c := password[..|password| - 1], password[|password| - 1];
      BlanksDoNotCount(h, front);
      var w := WithoutBlanks(front);
      if IsBlank(c) {
        assert w + [] == w;
      } else {
        assert (w + [c])[..|w|] == w;
      }
    }
  }

  // ---- The generator ----

  /** A uint32 result computed without wrapping. */
  predicate NoOverflow(x: int) {
    0 <= x < TWO_32
  }

  class MyRnd {
    var seed1: Word
    var seed2: Word

    ghost predicate Valid()
      reads this
    {
      seed1 < MAX_VAL && seed2 < MAX_VAL
    }

    constructor (s1: Word, s2: Word)
      ensures Valid() && seed1 == s1 % MAX_VAL && seed2 == s2 % MAX_VAL
    {
      seed1, seed2 := s1 % MAX_VAL, s2 % MAX_VAL;
    }

    /** NextByte: every uint32 operation is exact, and the result is below 31. */
    method NextByte() returns (b: Byte)
      requires Valid()
      modifies this
      ensures Valid()
      ensures (seed1, seed2) == NextSeeds(old(seed1), old(seed2))
      ensures b == Output(seed1) && b <= 30
    {
      hide Wrap;
      SeedsFit(seed1, seed2);
      Exact(seed1 * 3);
      Exact(seed1 * 3 + seed2);
      ghost var s1 := NextSeeds(seed1, seed2).0;
      Exact(s1 + seed2);
      Exact(s1 + seed2 + 33);
      seed1 := Wrap(Wrap(seed1 * 3) + seed2) % MAX_VAL;
      seed2 := Wrap(Wrap(seed1 + seed2) + 33) % MAX_VAL;
      OutputSmall(seed1);
      ExactByte(Output(seed1));
      b := seed1 * 31 / MAX_VAL % 256;
    }
  }

  lemma Exact(x: nat)
    requires NoOverflow(x)
    ensures Wrap(x) == x
  {
  }

  lemma ExactByte(x: nat)
    requires x < 256
    ensures x % 256 == x
  {
  }

  /** The recurrence over the integers. */
  function NextSeeds(seed1: int, seed2: int): (int, int) {
    var s1 := (seed1 * 3 + seed2) % MAX_VAL;
    (s1, (s1 + seed2 + 33) % MAX_VAL)
  }

  function Output(seed1: int): int {
    seed1 * 31 / MAX_VAL
  }

  /** None of the 32-bit sums and products of a step wraps. */
  lemma SeedsFit(seed1: nat, seed2: nat)
    requires seed1 < MAX_VAL && seed2 < MAX_VAL
    ensures NoOverflow(seed1 * 3) && NoOverflow(seed1 * 3 + seed2)
    ensures var s1 := (seed1 * 3 + seed2) % MAX_VAL;
            0 <= s1 < MAX_VAL && NoOverflow(s1 + seed2) && NoOverflow(s1 + seed2 + 33)
    ensures var (s1, s2) := NextSeeds(seed1, seed2); 0 <= s1 < MAX_VAL && 0 <= s2 < MAX_VAL
  {
  }

  lemma OutputSmall(seed1: nat)
    requires seed1 < MAX_VAL
    ensures 0 <= Output(seed1) <= 30
  {
  }

  /** The integer form is the floating-point form of the original generator, floor(31 * s / max). */
  lemma OutputIsScaledFraction(seed1: nat)
    requires seed1 < MAX_VAL
    ensures Output(seed1) == (31.0 * (seed1 as real / MAX_VAL as real)).Floor
  {
    var q := Output(seed1);
    var m := MAX_VAL as real;
    var x := 31.0 * (seed1 as real / m);
    assert x * m == (31 * seed1) as real;
    assert q * MAX_VAL <= 31 * seed1 < (q + 1) * MAX_VAL;
    assert (q as real) * m <= x * m < (q as real + 1.0) * m;
    assert q as real <= x < q as real + 1.0;
  }

  /** The states of the generator from given seeds. */
  function SeedsAfter(s1: int, s2: int, k: nat): (int, int)
    decreases k
  {
    if k == 0 then (s1 % MAX_VAL, s2 % MAX_VAL)
    else var (a, b) := SeedsAfter(s1, s2, k - 1); NextSeeds(a, b)
  }

  /** From any seeds, at every step: both seeds stay below the modulus and outputs below 31. */
  lemma {:induction false} GeneratorBounded(s1: Word, s2: Word, k: nat)
    ensures var (a, b) := SeedsAfter(s1, s2, k);
            0 <= a < MAX_VAL && 0 <= b < MAX_VAL && 0 <= Output(a) <= 30
    decreases k
  {
    if k > 0 {
      GeneratorBounded(s1, s2, k - 1);
      var (a, b) := SeedsAfter(s1, s2, k - 1);
      SeedsFit(a, b);
    }
  }

  // ---- The scramble ----

  /** Letters 0x40..0x5e mixed with a mask below 32 stay in 0x40..0x5f. */
  lemma MaskedLetter(r: nat, mask: nat)
    requires r <= 30 && mask <= 30
    ensures 0x40 <= Xor(r + 64, mask) <= 0x5f
  {
    PowersOfTwo();
    XorBelow(2, r, mask, 5);
    XorFits(r, mask, 5);
  }

  /** Byte i of the scramble: output i of the generator as a letter, mixed with output 8. */
  function ScrambleByte(s1: Word, s2: Word, i: nat): int
  {
    var (a, _) := SeedsAfter(s1, s2, i + 1);
    var (m, _) := SeedsAfter(s1, s2, 9);
    if Output(a) < 0 || Output(m) < 0 then 0 else Xor(Output(a) + 64, Output(m))
  }

  /** Mixes every letter with the mask. */
  method MixMask(out: array<Byte>, mask: Byte)
    requires mask <= 30 && forall k | 0 <= k < out.Length :: 64 <= out[k] <= 94
    modifies out
    ensures forall k | 0 <= k < out.Length :: out[k] == Xor(old(out[k]), mask) && 0x40 <= out[k] <= 0x5f
  {
    hide Xor;
    var i := 0;
    while i < out.Length
      invariant 0 <= i <= out.Length
      invariant forall k | 0 <= k < i :: out[k] == Xor(old(out[k]), mask) && 0x40 <= out[k] <= 0x5f
      invariant forall k | i <= k < out.Length :: out[k] == old(out[k])
    {
      MaskedLetter(out[i] - 64, mask);
      out[i] := Xor(out[i], mask);
      i := i + 1;
    }
  }

  /** scrambleOldPassword: eight bytes, none of which is the terminator 0 appended to them. */
  method ScrambleOldPassword(scramble: seq<Byte>, password: seq<Byte>) returns (out: array<Byte>)
    requires |scramble| >= 8
    ensures fresh(out) && out.Length == 8
    ensures forall i | 0 <= i < 8 :: 0x40 <= out[i] <= 0x5f
    ensures var p, s := HashAll(HASH_INIT, password), HashAll(HASH_INIT, scramble[..8]);
            var s1 := XorWord(p.w0 % 0x8000_0000, s.w0 % 0x8000_0000);
            var s2 := XorWord(p.w1 % 0x8000_0000, s.w1 % 0x8000_0000);
            forall i | 0 <= i < 8 :: out[i] == ScrambleByte(s1, s2, i)
  {
    hide HashAll, XorWord, Xor, NextSeeds, Output;
    var p0, p1 := PwHash(password);
    var c0, c1 := PwHash(scramble[..8]);
    var s1, s2 := XorWord(p0, c0), XorWord(p1, c1);
    var r := new MyRnd(s1, s2);
    out := new Byte[8];
    var i := 0;
    while i < 8
      invariant 0 <= i <= 8 && r.Valid() && (r.seed1, r.seed2) == SeedsAfter(s1, s2, i)
      invariant forall k | 0 <= k < i :: 64 <= out[k] == Output(SeedsAfter(s1, s2, k + 1).0) + 64 <= 94
    {
      var b := r.NextByte();
      out[i] := b + 64;
      i := i + 1;
    }
    var mask := r.NextByte();
    assert mask == Output(SeedsAfter(s1, s2, 9).0);
    MixMask(out, mask);
  }
}
