/** Date and time text: the formatter and the parser of the text protocol, and the two ways
    of reading a binary DATETIME value. */
module DateTimes {
  import opened Bytes
  import opened Decimals

  datatype TimeError = YearOutOfRange | BadField | NotDigit | InvalidLength | IllegalLength | OutOfBounds

  /** The fields handed to time.Date, or the zero time. */
  datatype Moment =
    | ZeroTime
    | Date(year: int, month: nat, day: nat, hour: nat, min: nat, sec: nat, nsec: nat)

  const DASH: Byte := 0x2d
  const SPACE: Byte := 0x20
  const COLON: Byte := 0x3a
  const DOT: Byte := 0x2e
  const ZERO: Byte := 0x30

  // ---- Digits ----

  /** The last `k` decimal digits of `n`. */
  function Dec(n: nat, k: nat): (s: seq<Byte>)
    ensures |s| == k
  {
    if k == 0 then [] else Dec(n / 10, k - 1) + [Digit(n % 10)]
  }

  predicate IsDigit(b: Byte) {
    0x30 <= b <= 0x39
  }

  /** bToi */
  function ToInt(b: Byte): (r: Option<nat>)
    ensures r.Some? <==> IsDigit(b)
    ensures r.Some? ==> r.value == b - 0x30 && r.value < 10
  {
    if b < 0x30 || b > 0x39 then None else Some(b - 0x30)
  }

  /** parseByte2Digits */
  function TwoDigits(b1: Byte, b2: Byte): (r: Option<nat>)
    ensures r.Some? ==> r.value < 100
  {
    if ToInt(b1).None? || ToInt(b2).None? then None
    else Some(ToInt(b1).value * 10 + ToInt(b2).value)
  }

  lemma DecTwo(n: nat)
    requires n < 100
    ensures Dec(n, 2) == [Digit(n / 10), Digit(n % 10)]
  {
    DecOne(n / 10);
  }

  lemma TwoDigitsOfDec(n: nat)
    requires n < 100
    ensures TwoDigits(Digit(n / 10), Digit(n % 10)) == Some(n)
  {
    var q, d := n / 10, n % 10;
    assert n == q * 10 + d;
  }

  lemma DecOne(n: nat)
    requires n < 10
    ensures Dec(n, 1) == [Digit(n)]
  {
    assert Dec(n, 1) == Dec(n / 10, 0) + [Digit(n % 10)];
  }

  /** The value of a run of digits whose first one counts `unit`. */
  function Scaled(b: seq<Byte>, unit: nat): Option<nat> {
    if b == [] then Some(0)
    else if !IsDigit(b[0]) then None
    else match Scaled(b[1..], unit / 10)
      case None => None
      case Some(rest) => Some((b[0] - 0x30) * unit + rest)
  }

  /** parseByteNanoSec: the loop reads a fraction of at most six digits. */
  method ParseByteNanoSec(b: seq<Byte>) returns (r: Option<nat>)
    ensures r == match Scaled(b, 100000) case None => None case Some(v) => Some(v * 1000)
  {
    var ns: nat, digit: nat := 0, 100000;
    var i := 0;
    while i < |b|
      invariant 0 <= i <= |b|
      invariant Scaled(b, 100000) == match Scaled(b[i..], digit) case None => None case Some(v) => Some(ns + v)
    {
      assert b[i..][1..] == b[i + 1..];
      var v := ToInt(b[i]);
      if v.None? { return None; }
      ns := ns + v.value * digit;
      digit := digit / 10;
      i := i + 1;
    }
    r := Some(ns * 1000);
  }

  /** parseByteYear */
  method ParseByteYear(b: seq<Byte>) returns (r: Option<nat>)
    requires |b| >= 4
    ensures r == Scaled(b[..4], 1000)
  {
    var year: nat, n: nat := 0, 1000;
    var s := b[..4];
    var i := 0;
    while i < 4
      invariant 0 <= i <= 4 && |s| == 4
      invariant Scaled(s, 1000) == match Scaled(s[i..], n) case None => None case Some(v) => Some(year + v)
    {
      assert s[i..][1..] == s[i + 1..];
      var v := ToInt(b[i]);
      if v.None? { return None; }
      year := year + v.value * n;
      n := n / 10;
      i := i + 1;
    }
    r := Some(year);
  }

  /** The unit of the first of `i` digits whose last one counts 1; 0 for none. */
  function Lead(i: nat): nat {
    if i == 0 then 0 else Pow10(i - 1)
  }

  lemma Distribute(q: nat, d: nat, p: nat)
    ensures q * (10 * p) + d * p == (10 * q + d) * p
  {
  }

  lemma HeadScaled(d: nat, tail: seq<Byte>, j: nat)
    requires d < 10
    ensures Scaled([Digit(d)] + tail, Lead(j + 1))
         == match Scaled(tail, Lead(j)) case None => None case Some(v) => Some(d * Pow10(j) + v)
  {
    assert ([Digit(d)] + tail)[1..] == tail;
  }

  /** Reading the digits of `n` gives back `n`, counted by the unit of its last digit. */
  lemma {:induction false} ScaledDec(n: nat, k: nat, j: nat, tail: seq<Byte>)
    requires n < Pow10(k)
    ensures Scaled(Dec(n, k) + tail, Lead(k + j))
         == match Scaled(tail, Lead(j)) case None => None case Some(v) => Some(n * Pow10(j) + v)
    decreases k
  {
    hide Scaled, Lead;
    if k == 0 {
      EmptyLeft(tail);
    } else {
      var d := n % 10;
      Associate(Dec(n / 10, k - 1), [Digit(d)], tail);
      ScaledDec(n / 10, k - 1, j + 1, [Digit(d)] + tail);
      HeadScaled(d, tail, j);
      Distribute(n / 10, d, Pow10(j));
    }
  }

  lemma ScaledDecAll(n: nat, k: nat, j: nat)
    requires n < Pow10(k)
    ensures Scaled(Dec(n, k), Lead(k + j)) == Some(n * Pow10(j))
  {
    ScaledDec(n, k, j, []);
    assert Dec(n, k) + [] == Dec(n, k);
  }

  // ---- Formatting ----

  function DropTrailingZeros(s: seq<Byte>): (r: seq<Byte>)
    ensures r <= s
  {
    if s != [] && s[|s| - 1] == ZERO then DropTrailingZeros(s[..|s| - 1]) else s
  }

  predicate InRange(t: Moment) {
    t.Date? && 1 <= t.month <= 12 && 1 <= t.day <= 31 && t.hour < 24 && t.min < 60 && t.sec < 60
    && t.nsec < 1_000_000_000
  }

  function DateText(year: nat, month: nat, day: nat): (s: seq<Byte>)
    ensures |s| == 10
  {
    Dec(year, 4) + [DASH] + Dec(month, 2) + [DASH] + Dec(day, 2)
  }

  function ClockText(hour: nat, min: nat, sec: nat): (s: seq<Byte>)
    ensures |s| == 9
  {
    [SPACE] + Dec(hour, 2) + [COLON] + Dec(min, 2) + [COLON] + Dec(sec, 2)
  }

  /** The date alone at midnight, else with the clock, and with the fraction less its trailing
      zeros if there is one. */
  function Text(t: Moment): seq<Byte>
    requires t.Date? && t.year >= 0
  {
    var date := DateText(t.year, t.month, t.day);
    if t.hour == 0 && t.min == 0 && t.sec == 0 && t.nsec == 0 then date
    else if t.nsec == 0 then date + ClockText(t.hour, t.min, t.sec)
    else date + ClockText(t.hour, t.min, t.sec) + [DOT] + DropTrailingZeros(Dec(t.nsec, 9))
  }

  /** digits10[i] and digits01[i] */
  method PutPair(a: array<Byte>, at: nat, i: nat)
    requires at + 2 <= a.Length && i < 100
    modifies a
    ensures a[at..at + 2] == Dec(i, 2)
    ensures a[..at] == old(a[..at]) && a[at + 2..] == old(a[at + 2..])
  {
    DecTwo(i);
    a[at], a[at + 1] := Digit(i / 10), Digit(i % 10);
  }

  lemma DivTen(n: nat)
    ensures n / 10 / 10 == n / 100 && n % 100 / 10 == n / 10 % 10 && n % 100 % 10 == n % 10
  {
  }

  lemma DecPair(n: nat, k: nat)
    ensures Dec(n, k + 2) == Dec(n / 100, k) + Dec(n % 100, 2)
  {
    DivTen(n);
    DecTwo(n % 100);
    Associate(Dec(n / 100, k), [Digit(n / 10 % 10)], [Digit(n % 10)]);
  }

  /** The digit groups of a year and of the nanoseconds, as the formatter computes them. */
  lemma YearDigits(year: nat)
    requires year < 10000
    ensures Dec(year, 4) == Dec(year / 100, 2) + Dec(year % 100, 2)
  {
    DecPair(year, 2);
  }

  lemma NanoDigits(n: nat)
    requires n < 1_000_000_000
    ensures Dec(n, 9) == [Digit(n / 100000000)] + Dec(n / 1000000 % 100, 2) + Dec(n / 10000 % 100, 2)
                         + Dec(n / 100 % 100, 2) + Dec(n % 100, 2)
  {
    DecPair(n, 7);
    DecPair(n / 100, 5);
    DecPair(n / 10000, 3);
    DecPair(n / 1000000, 1);
    DecOne(n / 100000000);
    assert n / 100 / 100 == n / 10000 && n / 10000 / 100 == n / 1000000 && n / 1000000 / 100 == n / 100000000;
  }

  /** One separator, then two digits, behind what is already there. */
  method PutField(a: array<Byte>, at: nat, separator: Byte, i: nat)
    requires at + 3 <= a.Length && i < 100
    modifies a
    ensures a[..at + 3] == old(a[..at]) + [separator] + Dec(i, 2)
  {
    a[at] := separator;
    ghost var before := a[..at + 1];
    PutPair(a, at + 1, i);
    assert a[..at + 3] == a[..at + 1] + a[at + 1..at + 3];
    assert before == old(a[..at]) + [separator];
  }

  method PutMorePair(a: array<Byte>, at: nat, i: nat)
    requires at + 2 <= a.Length && i < 100
    modifies a
    ensures a[..at + 2] == old(a[..at]) + Dec(i, 2)
  {
    PutPair(a, at, i);
    assert a[..at + 2] == a[..at] + a[at..at + 2];
  }

  method PutDate(a: array<Byte>, year: nat, month: nat, day: nat)
    requires a.Length == 29 && year < 10000 && month < 100 && day < 100
    modifies a
    ensures a[..10] == DateText(year, month, day)
  {
    YearDigits(year);
    PutMorePair(a, 0, year / 100);
    PutMorePair(a, 2, year % 100);
    assert a[..4] == Dec(year, 4);
    PutField(a, 4, DASH, month);
    PutField(a, 7, DASH, day);
  }

  method PutClock(a: array<Byte>, hour: nat, min: nat, sec: nat)
    requires a.Length == 29 && hour < 100 && min < 100 && sec < 100
    modifies a
    ensures a[..19] == old(a[..10]) + ClockText(hour, min, sec)
  {
    PutField(a, 10, SPACE, hour);
    PutField(a, 13, COLON, min);
    PutField(a, 16, COLON, sec);
    assert a[..19] == old(a[..10]) + [SPACE] + Dec(hour, 2) + [COLON] + Dec(min, 2) + [COLON] + Dec(sec, 2);
    Sixfold(old(a[..10]), [SPACE], Dec(hour, 2), [COLON], Dec(min, 2), [COLON], Dec(sec, 2));
  }

  lemma Sixfold<A>(p: seq<A>, a: seq<A>, b: seq<A>, c: seq<A>, d: seq<A>, e: seq<A>, f: seq<A>)
    ensures p + a + b + c + d + e + f == p + (a + b + c + d + e + f)
  {
  }

  method PutFraction(a: array<Byte>, nsec: nat)
    requires a.Length == 29 && nsec < 1_000_000_000
    modifies a
    ensures a[..] == old(a[..19]) + [DOT] + Dec(nsec, 9)
  {
    NanoDigits(nsec);
    a[19] := DOT;
    a[20] := Digit(nsec / 100000000);
    assert a[..21] == old(a[..19]) + [DOT] + [Digit(nsec / 100000000)];
    PutMorePair(a, 21, nsec / 1000000 % 100);
    PutMorePair(a, 23, nsec / 10000 % 100);
    PutMorePair(a, 25, nsec / 100 % 100);
    PutMorePair(a, 27, nsec % 100);
    assert a[..] == a[..29];
    Sixfold(old(a[..19]) + [DOT], [Digit(nsec / 100000000)], Dec(nsec / 1000000 % 100, 2),
            Dec(nsec / 10000 % 100, 2), Dec(nsec / 100 % 100, 2), Dec(nsec % 100, 2), []);
  }

  lemma {:induction false} ZerosStopAtDot(p: seq<Byte>, s: seq<Byte>)
    ensures DropTrailingZeros(p + [DOT] + s) == p + [DOT] + DropTrailingZeros(s)
    decreases |s|
  {
    var all := p + [DOT] + s;
    if s != [] && s[|s| - 1] == ZERO {
      assert all[..|all| - 1] == p + [DOT] + s[..|s| - 1];
      ZerosStopAtDot(p, s[..|s| - 1]);
    } else {
      assert all[|all| - 1] != ZERO;
    }
  }

  /** appendDateTime */
  method AppendDateTime(buf: seq<Byte>, t: Moment) returns (r: Result<seq<Byte>, TimeError>)
    requires InRange(t)
    ensures if 1 <= t.year <= 9999 then r == Ok(buf + Text(t)) else r == Err(YearOutOfRange)
  {
    if t.year < 1 || t.year > 9999 {
      return Err(YearOutOfRange);
    }
    hide Dec, DateText, ClockText, DropTrailingZeros;
    var localBuf := new Byte[29];
    PutDate(localBuf, t.year, t.month, t.day);
    if t.hour == 0 && t.min == 0 && t.sec == 0 && t.nsec == 0 {
      return Ok(buf + localBuf[..10]);
    }
    PutClock(localBuf, t.hour, t.min, t.sec);
    if t.nsec == 0 {
      return Ok(buf + localBuf[..19]);
    }
    PutFraction(localBuf, t.nsec);
    var n := TrimmedLength(localBuf);
    ZerosStopAtDot(DateText(t.year, t.month, t.day) + ClockText(t.hour, t.min, t.sec), Dec(t.nsec, 9));
    r := Ok(buf + localBuf[..n]);
  }

  method TrimmedLength(a: array<Byte>) returns (n: nat)
    ensures n <= a.Length && a[..n] == DropTrailingZeros(a[..])
  {
    n := a.Length;
    assert a[..n] == a[..];
    while n > 0 && a[n - 1] == ZERO
      invariant n <= a.Length && DropTrailingZeros(a[..n]) == DropTrailingZeros(a[..])
    {
      assert a[..n][..n - 1] == a[..n - 1];
      n := n - 1;
    }
  }

  // ---- Parsing ----

  /** The layout the parser accepts: digits and separators up to the microseconds. */
  function ParseDateTime(b: seq<Byte>): Result<Moment, TimeError> {
    if !(|b| == 10 || |b| == 19 || 21 <= |b| <= 26) then Err(InvalidLength)
    else if AllZero(b) then Ok(ZeroTime)
    else match Scaled(b[..4], 1000)
      case None => Err(NotDigit)
      case Some(year) =>
        if b[4] != DASH then Err(BadField)
        else if TwoDigits(b[5], b[6]).None? then Err(NotDigit)
        else if b[7] != DASH then Err(BadField)
        else if TwoDigits(b[8], b[9]).None? then Err(NotDigit)
        else
          var month, day := TwoDigits(b[5], b[6]).value, TwoDigits(b[8], b[9]).value;
          if |b| == 10 then Ok(Date(year, month, day, 0, 0, 0, 0))
          else ParseClock(b[10..], year, month, day)
  }

  function ParseClock(b: seq<Byte>, year: nat, month: nat, day: nat): Result<Moment, TimeError>
    requires |b| >= 9
  {
    if b[0] != SPACE then Err(BadField)
    else if TwoDigits(b[1], b[2]).None? then Err(NotDigit)
    else if b[3] != COLON then Err(BadField)
    else if TwoDigits(b[4], b[5]).None? then Err(NotDigit)
    else if b[6] != COLON then Err(BadField)
    else if TwoDigits(b[7], b[8]).None? then Err(NotDigit)
    else
      var hour, min, sec := TwoDigits(b[1], b[2]).value, TwoDigits(b[4], b[5]).value, TwoDigits(b[7], b[8]).value;
      if |b| == 9 then Ok(Date(year, month, day, hour, min, sec, 0))
      else if b[9] != DOT then Err(BadField)
      else match Scaled(b[10..], 100000)
        case None => Err(NotDigit)
        case Some(us) => Ok(Date(year, month, day, hour, min, sec, us * 1000))
  }

  /** A prefix of "0000-00-00 00:00:00.000000". */
  predicate AllZero(b: seq<Byte>)
    requires |b| == 10 || |b| == 19 || 21 <= |b| <= 26
  {
    if |b| == 10 then b == DateText(0, 0, 0)
    else if |b| == 19 then b == DateText(0, 0, 0) + ClockText(0, 0, 0)
    else b == DateText(0, 0, 0) + ClockText(0, 0, 0) + [DOT] + Dec(0, |b| - 20)
  }

  lemma DateReadBack(b: seq<Byte>, year: nat, month: nat, day: nat)
    requires year < 10000 && month < 100 && day < 100
    requires |b| >= 10 && b[..10] == DateText(year, month, day)
    ensures Scaled(b[..4], 1000) == Some(year) && b[4] == DASH && b[7] == DASH
    ensures TwoDigits(b[5], b[6]) == Some(month) && TwoDigits(b[8], b[9]) == Some(day)
  {
    hide Scaled, Dec, TwoDigits;
    assert b[..4] == b[..10][..4] == Dec(year, 4);
    Powers();
    ScaledDecAll(year, 4, 0);
    PairReadBack(b[..10], 5, month);
    PairReadBack(b[..10], 8, day);
    assert b[5..7] == b[..10][5..7];
  }

  lemma PairReadBack(b: seq<Byte>, at: nat, n: nat)
    requires at + 2 <= |b| && n < 100 && b[at..at + 2] == Dec(n, 2)
    ensures TwoDigits(b[at], b[at + 1]) == Some(n)
  {
    DecTwo(n);
    TwoDigitsOfDec(n);
    assert b[at] == b[at..at + 2][0] && b[at + 1] == b[at..at + 2][1];
  }

  lemma Powers()
    ensures Pow10(0) == 1 && Pow10(1) == 10 && Pow10(2) == 100 && Pow10(3) == 1000 && Pow10(4) == 10000
    ensures Pow10(5) == 100000 && Pow10(6) == 1000000 && Pow10(9) == 1000000000
    ensures Lead(4) == 1000 && Lead(6) == 100000
  {
    assert Pow10(2) == 10 * Pow10(1);
    assert Pow10(4) == 10 * Pow10(3);
    assert Pow10(6) == 10 * Pow10(5);
    assert Pow10(8) == 10 * Pow10(7);
  }

  /** The clock part, and what follows it, read back. */
  lemma ClockReadBack(b: seq<Byte>, hour: nat, min: nat, sec: nat, year: nat, month: nat, day: nat)
    requires hour < 100 && min < 100 && sec < 100
    requires |b| >= 9 && b[..9] == ClockText(hour, min, sec)
    ensures |b| == 9 ==> ParseClock(b, year, month, day) == Ok(Date(year, month, day, hour, min, sec, 0))
    ensures |b| > 9 && b[9] == DOT ==>
              ParseClock(b, year, month, day)
              == match Scaled(b[10..], 100000)
                 case None => Err(NotDigit)
                 case Some(us) => Ok(Date(year, month, day, hour, min, sec, us * 1000))
  {
    hide Scaled, Dec, TwoDigits;
    var c := b[..9];
    PairReadBack(c, 1, hour);
    PairReadBack(c, 4, min);
    PairReadBack(c, 7, sec);
  }

  /** Reading text made of a date, a clock and `fraction` behind a dot. */
  lemma TextReadBack(year: nat, month: nat, day: nat, hour: nat, min: nat, sec: nat, fraction: seq<Byte>)
    requires year < 10000 && month < 100 && day < 100 && hour < 100 && min < 100 && sec < 100
    requires 1 <= |fraction| <= 6
    ensures var b := DateText(year, month, day) + ClockText(hour, min, sec) + [DOT] + fraction;
            !AllZero(b) ==>
              ParseDateTime(b) == match Scaled(fraction, 100000)
                                  case None => Err(NotDigit)
                                  case Some(us) => Ok(Date(year, month, day, hour, min, sec, us * 1000))
  {
    hide Dec, Scaled, DateText, ClockText, AllZero, ParseClock;
    var d, c := DateText(year, month, day), ClockText(hour, min, sec);
    var b := d + c + [DOT] + fraction;
    assert b[..10] == d;
    DateReadBack(b, year, month, day);
    assert b[10..][..9] == c && b[10..][9] == DOT && b[10..][10..] == fraction;
    ClockReadBack(b[10..], hour, min, sec, year, month, day);
  }

  lemma YearNotZero(b: seq<Byte>, year: nat, month: nat, day: nat)
    requires 0 < year < 10000 && month < 100 && day < 100
    requires |b| == 10 || |b| == 19 || 21 <= |b| <= 26
    requires b[..10] == DateText(year, month, day)
    ensures !AllZero(b)
  {
    hide Dec, Scaled, DateText, ClockText;
    DateReadBack(b, year, month, day);
    if AllZero(b) {
      assert b[..10] == DateText(0, 0, 0);
      DateReadBack(b, 0, 0, 0);
    }
  }

  lemma TimesTen(m: nat, p: nat)
    ensures 10 * (m * p) == m * (10 * p)
  {
  }

  lemma TrimStep(n: nat, k: nat)
    requires k > 0
    ensures DropTrailingZeros(Dec(n, k)) == if n % 10 == 0 then DropTrailingZeros(Dec(n / 10, k - 1)) else Dec(n, k)
  {
    var s := Dec(n, k);
    assert s[|s| - 1] == Digit(n % 10) && s[..|s| - 1] == Dec(n / 10, k - 1);
  }

  /** Trimming removes a power of ten. */
  lemma {:induction false} TrimDividesByTens(n: nat, k: nat) returns (m: nat, j: nat)
    requires 0 < n < Pow10(k)
    ensures j <= k && DropTrailingZeros(Dec(n, k)) == Dec(m, j)
    ensures m % 10 != 0 && m < Pow10(j) && n == m * Pow10(k - j)
    decreases k
  {
    hide Dec, DropTrailingZeros;
    TrimStep(n, k);
    if n % 10 == 0 {
      m, j := TrimDividesByTens(n / 10, k - 1);
      TimesTen(m, Pow10(k - 1 - j));
    } else {
      m, j := n, k;
    }
  }

  lemma Thousands(m: nat, p: nat)
    ensures m * (1000 * p) == m * p * 1000 && m * p * 1000 % 1000 == 0
  {
  }

  /** Nine digits trim to at most six exactly for whole microseconds, and then count them. */
  lemma FractionLength(n: nat, m: nat, j: nat)
    requires j <= 9 && m % 10 != 0 && n == m * Pow10(9 - j)
    ensures j >= 1 && m < Pow10(j) && j <= 6 ==> n % 1000 == 0 && m * Pow10(6 - j) * 1000 == n
    ensures j > 6 ==> n % 1000 != 0
  {
    Powers();
    if j <= 6 {
      assert Pow10(9 - j) == 10 * Pow10(8 - j) && Pow10(8 - j) == 10 * Pow10(7 - j);
      assert Pow10(7 - j) == 10 * Pow10(6 - j);
      Thousands(m, Pow10(6 - j));
    } else if j == 7 {
      assert n == m * 100;
    } else if j == 8 {
      assert n == m * 10;
    } else {
      assert n == m;
    }
  }

  /** The parser inverts the formatter, trimmed and date-only forms included, exactly for times
      of whole microseconds; a finer time is formatted with a fraction that the parser rejects. */
  lemma ParseInvertsTextIffMicroseconds(t: Moment)
    requires InRange(t) && 1 <= t.year <= 9999
    ensures ParseDateTime(Text(t)) == Ok(t) <==> t.nsec % 1000 == 0
    ensures t.nsec % 1000 != 0 ==> ParseDateTime(Text(t)) == Err(InvalidLength)
  {
    hide DateText, ClockText, Dec, Scaled;
    var d, c := DateText(t.year, t.month, t.day), ClockText(t.hour, t.min, t.sec);
    if t.hour == 0 && t.min == 0 && t.sec == 0 && t.nsec == 0 {
      DateReadBack(d, t.year, t.month, t.day);
      YearNotZero(d, t.year, t.month, t.day);
    } else if t.nsec == 0 {
      var b := d + c;
      assert b[..10] == d && b[10..] == c && c[..9] == c;
      DateReadBack(b, t.year, t.month, t.day);
      YearNotZero(b, t.year, t.month, t.day);
      ClockReadBack(c, t.hour, t.min, t.sec, t.year, t.month, t.day);
    } else {
      FractionReadBack(t);
    }
  }

  lemma FractionReadBack(t: Moment)
    requires InRange(t) && 1 <= t.year <= 9999 && t.nsec != 0
    ensures ParseDateTime(Text(t)) == Ok(t) <==> t.nsec % 1000 == 0
    ensures t.nsec % 1000 != 0 ==> ParseDateTime(Text(t)) == Err(InvalidLength)
  {
    hide DateText, ClockText, Dec, Scaled;
    Powers();
    var m, j := TrimDividesByTens(t.nsec, 9);
    FractionLength(t.nsec, m, j);
    if j <= 6 {
      var b := DateText(t.year, t.month, t.day) + ClockText(t.hour, t.min, t.sec) + [DOT] + Dec(m, j);
      assert b[..10] == DateText(t.year, t.month, t.day);
      YearNotZero(b, t.year, t.month, t.day);
      TextReadBack(t.year, t.month, t.day, t.hour, t.min, t.sec, Dec(m, j));
      ScaledDecAll(m, j, 6 - j);
    }
  }

  // ---- Binary values ----

  /** The fields of a wire value of 4, 7 or 11 bytes. */
  function BinaryYear(src: seq<Byte>): nat
    requires |src| >= 4
  {
    FromLE(src[..2])
  }

  function Micros(src: seq<Byte>): nat
    requires |src| >= 4
  {
    if |src| == 11 then FromLE(src[7..11]) else 0
  }

  predicate WireLength(n: nat) {
    n == 4 || n == 7 || n == 11
  }

  /** parseBinaryDateTime on a value of `num` bytes. */
  function ParseBinaryDateTime(num: nat, data: seq<Byte>): Result<Moment, TimeError> {
    if num == 0 then Ok(ZeroTime)
    else if !WireLength(num) then Err(InvalidLength)
    else if num > |data| then Err(OutOfBounds)
    else
      var src := data[..num];
      if num == 4 then Ok(Date(BinaryYear(src), src[2], src[3], 0, 0, 0, 0))
      else Ok(Date(BinaryYear(src), src[2], src[3], src[4], src[5], src[6], Micros(src) * 1000))
  }

  /** digits10[i], digits01[i]; an index of 100 or more panics. */
  function Pair(i: nat): Result<seq<Byte>, TimeError> {
    if i >= 100 then Err(OutOfBounds) else Ok([Digit(i / 10), Digit(i % 10)])
  }

  function Both(a: Result<seq<Byte>, TimeError>, sep: seq<Byte>, b: Result<seq<Byte>, TimeError>)
    : Result<seq<Byte>, TimeError>
  {
    if a.Err? then a else if b.Err? then b else Ok(a.value + sep + b.value)
  }

  /** The digit pairs of appendMicrosecs; byte() keeps the low eight bits, uint32 wraps. */
  function MicrosParts(us: nat): (nat, nat, nat) {
    var p1 := us / 10000 % 256;
    var us2 := (us - 10000 * p1) % 0x1_0000_0000;
    var p2 := us2 / 100 % 256;
    var us3 := (us2 - 100 * p2) % 0x1_0000_0000;
    (p1, p2, us3 % 256)
  }

  /** appendMicrosecs on an empty destination. */
  function MicrosText(src: seq<Byte>, decimals: int): Result<seq<Byte>, TimeError>
    requires src == [] || |src| == 4
    requires decimals <= 6
  {
    if decimals <= 0 then Ok([])
    else if src == [] then Ok([DOT] + Dec(0, decimals))
    else
      var (p1, p2, p3) := MicrosParts(FromLE(src));
      if p1 >= 100 || (decimals >= 3 && p2 >= 100) || (decimals >= 5 && p3 >= 100) then Err(OutOfBounds)
      else
        var q1 := [Digit(p1 / 10), Digit(p1 % 10)];
        var q2 := if p2 < 100 then [Digit(p2 / 10), Digit(p2 % 10)] else [ZERO, ZERO];
        var q3 := if p3 < 100 then [Digit(p3 / 10), Digit(p3 % 10)] else [ZERO, ZERO];
        Ok([DOT] + (q1 + q2 + q3)[..decimals])
  }

  /** formatBinaryDateTime: text of `length` characters. */
  function FormatBinaryDateTime(src: seq<Byte>, length: nat): Result<seq<Byte>, TimeError>
  {
    if src == [] then
      if length > 26 then Err(OutOfBounds)
      else Ok((DateText(0, 0, 0) + ClockText(0, 0, 0) + [DOT] + Dec(0, 6))[..length])
    else if !(length == 10 || length == 19 || 21 <= length <= 26) then Err(IllegalLength)
    else if !WireLength(|src|) then Err(InvalidLength)
    else
      var year := BinaryYear(src);
      var date := Both(Both(Both(Pair(year / 100), [], Pair(year % 100)), [DASH], Pair(src[2])), [DASH], Pair(src[3]));
      if date.Err? || length == 10 then date
      else if |src| == 4 then
        Ok(date.value + (ClockText(0, 0, 0) + [DOT] + Dec(0, 6))[..length - 10])
      else
        var clock := Both(Both(Pair(src[4]), [COLON], Pair(src[5])), [COLON], Pair(src[6]));
        Both(Both(date, [SPACE], clock), [], MicrosText(src[7..], length - 20))
  }

  /** The two-digit fields and the microseconds of a value are ones that a clock can show. */
  predicate Showable(src: seq<Byte>) {
    WireLength(|src|) && BinaryYear(src) < 10000 && src[2] < 100 && src[3] < 100
    && (|src| > 4 ==> src[4] < 100 && src[5] < 100 && src[6] < 100) && Micros(src) < 1_000_000
  }

  function Shown(src: seq<Byte>): Moment
    requires WireLength(|src|)
  {
    ParseBinaryDateTime(|src|, src).value
  }

  lemma PairIsDec(i: nat)
    requires i < 100
    ensures Pair(i) == Ok(Dec(i, 2))
  {
    DecTwo(i);
  }

  lemma MicrosDigits(us: nat)
    requires us < 1_000_000
    ensures Dec(us, 6) == Dec(us / 10000, 2) + Dec(us / 100 % 100, 2) + Dec(us % 100, 2)
  {
    DecPair(us, 4);
    DecPair(us / 100, 2);
    assert us / 100 / 100 == us / 10000;
  }

  lemma MicrosPartsAre(us: nat)
    requires us < 1_000_000
    ensures MicrosParts(us) == (us / 10000, us / 100 % 100, us % 100)
  {
    var p1 := us / 10000;
    var r := us - 10000 * p1;
    var p2 := r / 100;
    var p3 := r - 100 * p2;
    Hundreds(us, 100 * p1 + p2, p3);
    Hundreds(100 * p1 + p2, p1, p2);
    Small(p1, 256);
    Small(r, 0x1_0000_0000);
    Small(p2, 256);
    Small(p3, 0x1_0000_0000);
    Small(p3, 256);
  }

  lemma Hundreds(n: nat, q: nat, r: nat)
    requires n == 100 * q + r && r < 100
    ensures n / 100 == q && n % 100 == r
  {
  }

  lemma Small(n: nat, m: nat)
    requires n < m
    ensures n % m == n
  {
  }

  /** The first digits of a number are those of the number less its last digits. */
  lemma {:induction false} DecPrefix(n: nat, k: nat, d: nat)
    requires d <= k
    ensures Dec(n, k)[..d] == Dec(n / Pow10(k - d), d)
    decreases k
  {
    if d < k {
      DecPrefix(n / 10, k - 1, d);
      assert Dec(n, k)[..d] == Dec(n / 10, k - 1)[..d];
      DivideTwice(n, Pow10(k - 1 - d));
    }
  }

  lemma DivideTwice(n: nat, p: nat)
    requires p > 0
    ensures n / 10 / p == n / (10 * p)
  {
    var q, r := n / (10 * p), n % (10 * p);
    assert n == 10 * (p * q) + r;
    assert n / 10 == p * q + r / 10;
    assert r / 10 < p;
    QuotientOf(n / 10, p, q, r / 10);
  }

  lemma QuotientOf(n: nat, p: nat, q: nat, r: nat)
    requires n == p * q + r && r < p
    ensures n / p == q
  {
    var d := n / p - q;
    assert p * d == p * (n / p) - p * q;
    assert p * d < p && 0 < p * d + p;
    Multiples(p, d);
  }

  lemma Multiples(p: int, d: int)
    requires p > 0
    ensures d >= 1 ==> p * d >= p
    ensures d <= -1 ==> p * d <= -p
  {
  }

  /** As many digits of the fraction as are asked for. */
  function Fraction(us: nat, decimals: int): seq<Byte>
    requires decimals <= 6
  {
    if decimals <= 0 then [] else [DOT] + Dec(us, 6)[..decimals]
  }

  lemma MicrosTextIs(src: seq<Byte>, decimals: int)
    requires decimals <= 6 && (src == [] || |src| == 4)
    requires src != [] ==> FromLE(src) < 1_000_000
    ensures MicrosText(src, decimals) == Ok(Fraction(if src == [] then 0 else FromLE(src), decimals))
  {
    hide Dec, Digit, MicrosParts, FromLE;
    if src == [] {
      if decimals > 0 { DecPrefix(0, 6, decimals); }
    } else {
      var us := FromLE(src);
      MicrosPartsAre(us);
      MicrosDigits(us);
      DecTwo(us / 10000);
      DecTwo(us / 100 % 100);
      DecTwo(us % 100);
    }
  }

  lemma DateIs(year: nat, month: nat, day: nat)
    requires year < 10000 && month < 100 && day < 100
    ensures Both(Both(Both(Pair(year / 100), [], Pair(year % 100)), [DASH], Pair(month)), [DASH], Pair(day))
            == Ok(DateText(year, month, day))
  {
    PairIsDec(year / 100);
    PairIsDec(year % 100);
    PairIsDec(month);
    PairIsDec(day);
    YearDigits(year);
    assert Dec(year / 100, 2) + [] + Dec(year % 100, 2) == Dec(year, 4);
  }

  lemma ClockIs(h: nat, m: nat, s: nat)
    requires h < 100 && m < 100 && s < 100
    ensures Both(Both(Pair(h), [COLON], Pair(m)), [COLON], Pair(s)) == Ok(ClockText(h, m, s)[1..])
    ensures ClockText(h, m, s)[0] == SPACE
  {
    PairIsDec(h);
    PairIsDec(m);
    PairIsDec(s);
    assert ClockText(h, m, s)[1..] == Dec(h, 2) + [COLON] + Dec(m, 2) + [COLON] + Dec(s, 2);
  }

  /** Date, clock and all six digits of the fraction. */
  function FullText(t: Moment, us: nat): (s: seq<Byte>)
    requires t.Date? && t.year >= 0
    ensures |s| == 26
  {
    DateText(t.year, t.month, t.day) + ClockText(t.hour, t.min, t.sec) + [DOT] + Dec(us, 6)
  }

  predicate TextLength(length: nat) {
    length == 10 || length == 19 || 21 <= length <= 26
  }

  /** At every length the text of a binary value spells out its fields, as far as it goes. */
  lemma BinaryText(src: seq<Byte>, length: nat)
    requires Showable(src) && TextLength(length)
    ensures FormatBinaryDateTime(src, length) == Ok(FullText(Shown(src), Micros(src))[..length])
  {
    hide Dec, DateText, ClockText, Pair, MicrosText;
    DateIs(BinaryYear(src), src[2], src[3]);
    assert src[..|src|] == src;
    var t := Shown(src);
    var d, c := DateText(t.year, t.month, t.day), ClockText(t.hour, t.min, t.sec);
    TextPrefix(d, c, Dec(Micros(src), 6), length);
    if |src| > 4 {
      ClockIs(src[4], src[5], src[6]);
      if |src| == 11 { assert src[7..11] == src[7..]; }
      MicrosTextIs(src[7..], length - 20);
      assert d + [SPACE] + c[1..] == d + c;
      assert (d + c) + [] + Fraction(Micros(src), length - 20) == d + c + Fraction(Micros(src), length - 20);
    }
  }

  lemma TextPrefix(d: seq<Byte>, c: seq<Byte>, f: seq<Byte>, length: nat)
    requires |d| == 10 && |c| == 9 && |f| == 6 && TextLength(length)
    ensures (d + c + [DOT] + f)[..10] == d
    ensures length > 10 ==>
              && (d + c + [DOT] + f)[..length] == d + (c + [DOT] + f)[..length - 10]
              && (d + c + [DOT] + f)[..length] == d + c + if length == 19 then [] else [DOT] + f[..length - 20]
  {
  }

  /** Reading the 26-character text of a binary DATETIME gives the fields that reading the
      binary value directly gives, exactly when the value is not all zero: the text of zero is
      the zero time, while time.Date gets its zero fields. */
  lemma DatePathsAgreeIffNonzero(src: seq<Byte>)
    requires Showable(src)
    ensures FormatBinaryDateTime(src, 26).Ok?
    ensures ParseDateTime(FormatBinaryDateTime(src, 26).value) == ParseBinaryDateTime(|src|, src)
            <==> Shown(src) != Date(0, 0, 0, 0, 0, 0, 0)
  {
    hide Dec, DateText, ClockText, Scaled;
    BinaryText(src, 26);
    Powers();
    var t, us := Shown(src), Micros(src);
    assert FullText(t, us)[..26] == FullText(t, us);
    var d, c := DateText(t.year, t.month, t.day), ClockText(t.hour, t.min, t.sec);
    var b := d + c + [DOT] + Dec(us, 6);
    assert src[..|src|] == src;
    if AllZero(b) {
      ZeroFields(t.year, t.month, t.day, t.hour, t.min, t.sec, us);
    } else {
      TextReadBack(t.year, t.month, t.day, t.hour, t.min, t.sec, Dec(us, 6));
      ScaledDecAll(us, 6, 0);
    }
  }

  lemma ZeroFields(year: nat, month: nat, day: nat, hour: nat, min: nat, sec: nat, us: nat)
    requires year < 10000 && month < 100 && day < 100 && hour < 100 && min < 100 && sec < 100 && us < 1_000_000
    requires AllZero(DateText(year, month, day) + ClockText(hour, min, sec) + [DOT] + Dec(us, 6))
    ensures year == month == day == hour == min == sec == us == 0
  {
    hide Dec, DateText, ClockText, Scaled;
    var d, c, f := DateText(year, month, day), ClockText(hour, min, sec), Dec(us, 6);
    var d0, c0, f0 := DateText(0, 0, 0), ClockText(0, 0, 0), Dec(0, 6);
    var b := d + c + [DOT] + f;
    assert d == b[..10] == d0 && c == b[10..19] == c0 && f == b[20..] == f0;
    DateReadBack(d, year, month, day);
    DateReadBack(d, 0, 0, 0);
    SameClock(hour, min, sec);
    Powers();
    ScaledDecAll(us, 6, 0);
    ScaledDecAll(0, 6, 0);
  }

  lemma SameClock(hour: nat, min: nat, sec: nat)
    requires hour < 100 && min < 100 && sec < 100 && ClockText(hour, min, sec) == ClockText(0, 0, 0)
    ensures hour == min == sec == 0
  {
    var c := ClockText(hour, min, sec);
    assert c[..9] == c;
    ClockReadBack(c, hour, min, sec, 0, 0, 0);
    ClockReadBack(c, 0, 0, 0, 0, 0, 0);
  }

  /** formatBinaryTime: an optional sign, at least two digits of hours, minutes, seconds and
      the fraction. */
  function FormatBinaryTime(src: seq<Byte>, length: nat): Result<seq<Byte>, TimeError> {
    if src == [] then
      if length > 15 then Err(OutOfBounds)
      else Ok((ClockText(0, 0, 0)[1..] + [DOT] + Dec(0, 6))[..length])
    else if !(length == 8 || 10 <= length <= 15) then Err(IllegalLength)
    else if |src| != 8 && |src| != 12 then Err(InvalidLength)
    else
      var sign := if src[0] == 1 then [DASH] else [];
      var hours := FromLE(src[1..5]) * 24 + src[5];
      var shown := if hours >= 100 then Ok(Decimal(hours)) else Pair(hours);
      var rest := Both(Both(shown, [COLON], Pair(src[6])), [COLON], Pair(src[7]));
      Both(Ok(sign), [], Both(rest, [], MicrosText(src[8..], length - 9)))
  }
}
