/** Known values of the old password scheme: the hash of the password 'a', and its scramble for
    one challenge. */
module OldPasswordValues {
  import opened Bytes
  import opened OldPassword

  // ---- Exclusive or on hexadecimal digits ----

  /** Two bits. */
  function XorTwo(x: nat, y: nat): nat {
    if x == 0 then y else if y == 0 then x else if x == y || x + y > 6 then 0 else 6 - x - y
  }

  function High(x: nat): nat {
    if x < 4 then 0 else if x < 8 then 1 else if x < 12 then 2 else 3
  }

  /** Four bits. */
  function XorDigit(x: nat, y: nat): nat
    requires x < 16 && y < 16
  {
    4 * XorTwo(High(x), High(y)) + XorTwo(x - 4 * High(x), y - 4 * High(y))
  }

  lemma PushBit(a: nat, b: nat, x: nat, y: nat)
    requires x < 2 && y < 2
    ensures Xor(2 * a + x, 2 * b + y) == 2 * Xor(a, b) + (x + y) % 2
  {
    assert (2 * a + x) / 2 == a && (2 * b + y) / 2 == b;
  }

  lemma PushTwo(a: nat, b: nat, x: nat, y: nat)
    requires x < 4 && y < 4
    ensures Xor(4 * a + x, 4 * b + y) == 4 * Xor(a, b) + XorTwo(x, y)
  {
    hide Xor;
    PushBit(a, b, x / 2, y / 2);
    PushBit(2 * a + x / 2, 2 * b + y / 2, x % 2, y % 2);
  }

  lemma PushDigit(a: nat, b: nat, x: nat, y: nat)
    requires x < 16 && y < 16
    ensures Xor(16 * a + x, 16 * b + y) == 16 * Xor(a, b) + XorDigit(x, y)
  {
    hide Xor, XorTwo;
    PushTwo(a, b, High(x), High(y));
    PushTwo(4 * a + High(x), 4 * b + High(y), x - 4 * High(x), y - 4 * High(y));
  }

  /** Four hexadecimal digits. */
  type Four = d: (nat, nat, nat, nat) | d.0 < 16 && d.1 < 16 && d.2 < 16 && d.3 < 16 witness (0, 0, 0, 0)

  function XorHalf(p: Four, q: Four): nat
  {
    0x1000 * XorDigit(p.0, q.0) + 0x100 * XorDigit(p.1, q.1) + 0x10 * XorDigit(p.2, q.2) + XorDigit(p.3, q.3)
  }

  lemma PushHalf(a: nat, b: nat, p: Four, q: Four, x: nat, y: nat)
    requires x == 0x1_0000 * a + 0x1000 * p.0 + 0x100 * p.1 + 0x10 * p.2 + p.3
    requires y == 0x1_0000 * b + 0x1000 * q.0 + 0x100 * q.1 + 0x10 * q.2 + q.3
    ensures Xor(x, y) == 0x1_0000 * Xor(a, b) + XorHalf(p, q)
  {
    hide Xor, XorDigit;
    PushDigit(a, b, p.0, q.0);
    var a1, b1 := 16 * a + p.0, 16 * b + q.0;
    PushDigit(a1, b1, p.1, q.1);
    var a2, b2 := 16 * a1 + p.1, 16 * b1 + q.1;
    PushDigit(a2, b2, p.2, q.2);
    PushDigit(16 * a2 + p.2, 16 * b2 + q.2, p.3, q.3);
  }

  /** Two words by their digits, and the result. */
  lemma XorWords(x: nat, y: nat, p1: Four, p0: Four, q1: Four, q0: Four, r: nat)
    requires x == 0x1000_0000 * p1.0 + 0x100_0000 * p1.1 + 0x10_0000 * p1.2 + 0x1_0000 * p1.3
                  + 0x1000 * p0.0 + 0x100 * p0.1 + 0x10 * p0.2 + p0.3
    requires y == 0x1000_0000 * q1.0 + 0x100_0000 * q1.1 + 0x10_0000 * q1.2 + 0x1_0000 * q1.3
                  + 0x1000 * q0.0 + 0x100 * q0.1 + 0x10 * q0.2 + q0.3
    requires r == 0x1_0000 * XorHalf(p1, q1) + XorHalf(p0, q0)
    ensures Xor(x, y) == r
  {
    hide Xor, XorDigit, XorHalf;
    var x1 := 0x1000 * p1.0 + 0x100 * p1.1 + 0x10 * p1.2 + p1.3;
    var y1 := 0x1000 * q1.0 + 0x100 * q1.1 + 0x10 * q1.2 + q1.3;
    XorZero(0);
    PushHalf(0, 0, p1, q1, x1, y1);
    PushHalf(x1, y1, p0, q0, x, y);
  }

  // ---- The hash of 'a' ----

  lemma FirstXor()
    ensures Xor(0x50305735, 0x30574bbc) == 0x60671c89
  {
    hide Xor;
    XorWords(0x50305735, 0x30574bbc, (5, 0, 3, 0), (5, 7, 3, 5), (3, 0, 5, 7), (4, 11, 11, 12), 0x60671c89);
  }

  lemma SecondXor()
    ensures Xor(0x34567100, 0x60671c89) == 0x54316d89
  {
    hide Xor;
    XorWords(0x34567100, 0x60671c89, (3, 4, 5, 6), (7, 1, 0, 0), (6, 0, 6, 7), (1, 12, 8, 9), 0x54316d89);
  }

  lemma Operands()
    ensures Wrap(Wrap(Wrap(0x50305735 % 64 + 7) * 0x61) + Wrap(0x50305735 * 256)) == 0x30574bbc
    ensures Wrap(0x12345671 * 256) == 0x34567100
  {
  }

  lemma HashOfA()
    ensures HashByte(Hash(0x50305735, 0x12345671, 7), 0x61) == Hash(0x60671c89, 0x6665c3fa, 0x68)
  {
    hide Xor, Wrap;
    Operands();
    FirstXor();
    SecondXor();
    assert Wrap(0x12345671 + 0x54316d89) == 0x6665c3fa && Wrap(7 + 0x61) == 0x68 by { Sums(); }
  }

  lemma Sums()
    ensures Wrap(0x12345671 + 0x54316d89) == 0x6665c3fa && Wrap(7 + 0x61) == 0x68
  {
  }

  /** The hash of the password 'a', from the hash's initial words; neither sign bit is set. */
  lemma KnownHash()
    ensures var h := HashAll(HASH_INIT, [0x61]);
            h.w0 % 0x8000_0000 == 0x60671c89 && h.w1 % 0x8000_0000 == 0x6665c3fa
  {
    hide HashByte;
    HashOfA();
    assert HashAll(HASH_INIT, [0x61]) == HashByte(HashAll(HASH_INIT, []), 0x61) by { assert [0x61][..0] == []; }
  }

  // ---- A scramble ----

  lemma FirstSeed()
    ensures Xor(0x60671c89, 0x50305735) == 0x30574bbc
  {
    hide Xor;
    XorWords(0x60671c89, 0x50305735, (6, 0, 6, 7), (1, 12, 8, 9), (5, 0, 3, 0), (5, 7, 3, 5), 0x30574bbc);
  }

  lemma SecondSeed()
    ensures Xor(0x6665c3fa, 0x12345671) == 0x7451958b
  {
    hide Xor;
    XorWords(0x6665c3fa, 0x12345671, (6, 6, 6, 5), (12, 3, 15, 10), (1, 2, 3, 4), (5, 6, 7, 1), 0x7451958b);
  }

  lemma {:induction false} BlanksLeaveHash(h: Hash, s: seq<Byte>)
    requires forall i | 0 <= i < |s| :: s[i] == 0x20
    ensures HashAll(h, s) == h
    decreases |s|
  {
    if s != [] { BlanksLeaveHash(h, s[..|s| - 1]); }
  }

  lemma SeedsStep(s1: int, s2: int, k: nat, a: int, b: int)
    requires SeedsAfter(s1, s2, k) == (a, b)
    ensures SeedsAfter(s1, s2, k + 1) == NextSeeds(a, b)
  {
  }

  /** Nine turns of the generator. */
  lemma Turns()
    ensures NextSeeds(811027388, 877761932) == (89618627, 967380592)
    ensures NextSeeds(89618627, 967380592) == (162494650, 56133452)
    ensures NextSeeds(162494650, 56133452) == (543617402, 599750887)
    ensures NextSeeds(543617402, 599750887) == (83119447, 682870367)
    ensures NextSeeds(83119447, 682870367) == (932228708, 541357285)
    ensures NextSeeds(932228708, 541357285) == (116817940, 658175258)
    ensures NextSeeds(116817940, 658175258) == (1008629078, 593062546)
    ensures NextSeeds(1008629078, 593062546) == (397724311, 990786890)
    ensures NextSeeds(397724311, 990786890) == (36476177, 1027263100)
  {
  }

  lemma Outputs()
    ensures Output(89618627) == 2 && Output(162494650) == 4 && Output(543617402) == 15
    ensures Output(83119447) == 2 && Output(932228708) == 26 && Output(116817940) == 3
    ensures Output(1008629078) == 29 && Output(397724311) == 11 && Output(36476177) == 1
  {
  }

  /** The generator from these seeds. */
  lemma Generated()
    ensures var s1, s2 := 0x30574bbc, 0x7451958b;
            && Output(SeedsAfter(s1, s2, 1).0) == 2
            && Output(SeedsAfter(s1, s2, 2).0) == 4
            && Output(SeedsAfter(s1, s2, 3).0) == 15
            && Output(SeedsAfter(s1, s2, 4).0) == 2
            && Output(SeedsAfter(s1, s2, 5).0) == 26
            && Output(SeedsAfter(s1, s2, 6).0) == 3
            && Output(SeedsAfter(s1, s2, 7).0) == 29
            && Output(SeedsAfter(s1, s2, 8).0) == 11
            && Output(SeedsAfter(s1, s2, 9).0) == 1
  {
    hide NextSeeds, Output;
    var s1, s2 := 0x30574bbc, 0x7451958b;
    Turns();
    Outputs();
    assert SeedsAfter(s1, s2, 0) == (811027388, 877761932);
    hide SeedsAfter;
    SeedsStep(s1, s2, 0, 811027388, 877761932);
    SeedsStep(s1, s2, 1, 89618627, 967380592);
    SeedsStep(s1, s2, 2, 162494650, 56133452);
    SeedsStep(s1, s2, 3, 543617402, 599750887);
    SeedsStep(s1, s2, 4, 83119447, 682870367);
    SeedsStep(s1, s2, 5, 932228708, 541357285);
    SeedsStep(s1, s2, 6, 116817940, 658175258);
    SeedsStep(s1, s2, 7, 1008629078, 593062546);
    SeedsStep(s1, s2, 8, 397724311, 990786890);
  }

  /** The mask is 1: it turns the last bit of every letter. */
  lemma MaskOfOne(n: nat)
    ensures Xor(n, 1) == if n % 2 == 0 then n + 1 else n - 1
  {
    PushBit(n / 2, 0, n % 2, 1);
    XorZero(n / 2);
  }

  /** The scramble of the password 'a' for a challenge of eight blanks. */
  lemma KnownScramble(challenge: seq<Byte>)
    requires |challenge| == 8 && forall i | 0 <= i < 8 :: challenge[i] == 0x20
    ensures var p, s := HashAll(HASH_INIT, [0x61]), HashAll(HASH_INIT, challenge);
            var s1 := XorWord(p.w0 % 0x8000_0000, s.w0 % 0x8000_0000);
            var s2 := XorWord(p.w1 % 0x8000_0000, s.w1 % 0x8000_0000);
            && ScrambleByte(s1, s2, 0) == 0x43 && ScrambleByte(s1, s2, 1) == 0x45
            && ScrambleByte(s1, s2, 2) == 0x4e && ScrambleByte(s1, s2, 3) == 0x43
            && ScrambleByte(s1, s2, 4) == 0x5b && ScrambleByte(s1, s2, 5) == 0x42
            && ScrambleByte(s1, s2, 6) == 0x5c && ScrambleByte(s1, s2, 7) == 0x4a
  {
    hide HashAll, Xor, SeedsAfter, Output;
    BlanksLeaveHash(HASH_INIT, challenge);
    KnownHash();
    FirstSeed();
    SecondSeed();
    Generated();
    MaskOfOne(66);
    MaskOfOne(67);
    MaskOfOne(68);
    MaskOfOne(75);
    MaskOfOne(79);
    MaskOfOne(90);
    MaskOfOne(93);
  }
}
