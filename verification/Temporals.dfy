/** Temporal values of the binary protocol: their fields, the bytes in which a server sends them,
    and the texts in which they are delivered. */
module Temporals {
  import opened Bytes
  import opened DateTimes
  import opened Decimals
  import LengthEncoding

  /** A span of time, or a point in time. */
  datatype Temporal =
    | Span(negative: bool, days: nat, hours: Byte, min: Byte, sec: Byte, us: nat)
    | Point(year: nat, month: Byte, day: Byte, hours: Byte, min: Byte, sec: Byte, us: nat)

  predicate Midnight(t: Temporal) {
    t.hours == 0 && t.min == 0 && t.sec == 0 && t.us == 0
  }

  /** The lengths a value can have on the wire: what is left out is zero. */
  predicate HasForm(t: Temporal, form: nat) {
    && t.us < 1_000_000
    && match t
       case Span(negative, days, _, _, _, us) =>
         && days < 0x1_0000_0000
         && (form == 0 || form == 8 || form == 12)
         && (form == 0 ==> !negative && days == 0 && Midnight(t))
         && (form == 8 ==> us == 0)
       case Point(year, month, day, _, _, _, us) =>
         && year < 0x1_0000
         && (form == 0 || form == 4 || form == 7 || form == 11)
         && (form == 0 ==> year == 0 && month == 0 && day == 0)
         && (form <= 4 ==> Midnight(t))
         && (form == 7 ==> us == 0)
  }

  /** What a server sends behind the length byte. */
  function Encode(t: Temporal, form: nat): (b: seq<Byte>)
    requires HasForm(t, form)
    ensures |b| == form
  {
    if form == 0 then []
    else match t
      case Span(negative, days, hours, min, sec, us) =>
        [if negative then 1 else 0] + LE(days, 4) + [hours, min, sec] + (if form == 12 then LE(us, 4) else [])
      case Point(year, month, day, hours, min, sec, us) =>
        LE(year, 2) + [month, day] + (if form > 4 then [hours, min, sec] else [])
        + (if form == 11 then LE(us, 4) else [])
  }

  // ---- Spans ----

  function TotalHours(t: Temporal): nat
    requires t.Span?
  {
    24 * t.days + t.hours
  }

  /** At least two digits. */
  function HoursText(hours: nat): (s: seq<Byte>)
  {
    if hours < 100 then Dec(hours, 2) else Decimal(hours)
  }

  /** [-]HH:MM:SS, with the fraction if `decimals` is positive. */
  function SpanText(t: Temporal, decimals: nat): seq<Byte>
    requires t.Span? && decimals <= 6
  {
    (if t.negative then [DASH] else []) + HoursText(TotalHours(t)) + [COLON] + Dec(t.min, 2) + [COLON] + Dec(t.sec, 2)
    + Fraction(t.us, decimals)
  }

  lemma SpanFields(t: Temporal, form: nat)
    requires t.Span? && HasForm(t, form) && form > 0
    ensures var b := Encode(t, form);
            && (b[0] == 1 <==> t.negative)
            && FromLE(b[1..5]) == t.days && b[5] == t.hours && b[6] == t.min && b[7] == t.sec
            && (if form == 8 then b[8..] == [] else FromLE(b[8..]) == t.us)
  {
    hide LE, FromLE;
    var b := Encode(t, form);
    FourBytes(t.days);
    FourBytes(t.us);
    assert b[1..5] == LE(t.days, 4);
    if form == 12 { assert b[8..] == LE(t.us, 4); }
  }

  lemma FourBytes(n: nat)
    requires n < 0x1_0000_0000
    ensures FromLE(LE(n, 4)) == n
  {
    LengthEncoding.Widths();
    assert Pow256(4) == 256 * Pow256(3);
    FromLEInvertsLE(n, 4);
  }

  /** formatBinaryTime shows exactly the fields of the value, and fails exactly for minutes or
      seconds that have no two digits. */
  lemma SpanFormats(t: Temporal, form: nat, decimals: nat)
    requires t.Span? && HasForm(t, form) && decimals <= 6
    ensures FormatBinaryTime(Encode(t, form), if decimals == 0 then 8 else 9 + decimals)
         == if t.min < 100 && t.sec < 100 then Ok(SpanText(t, decimals)) else Err(OutOfBounds)
  {
    hide Dec, Pair, MicrosText, LE, FromLE, Decimal;
    var length := if decimals == 0 then 8 else 9 + decimals;
    var b := Encode(t, form);
    if form == 0 {
      ZeroSpan(t, decimals);
    } else {
      SpanFields(t, form);
      MicrosTextIs(b[8..], length - 9);
      if t.min < 100 && t.sec < 100 {
        PairIsDec(t.min);
        PairIsDec(t.sec);
        var hours := TotalHours(t);
        if hours < 100 { PairIsDec(hours); }
        SpanJoins(if t.negative then [DASH] else [], HoursText(hours), Dec(t.min, 2), Dec(t.sec, 2),
                  Fraction(t.us, decimals));
      } else {
        if TotalHours(t) < 100 { PairIsDec(TotalHours(t)); }
        SpanFails(HoursText(TotalHours(t)), t.min, t.sec);
      }
    }
  }

  lemma SpanFails(hours: seq<Byte>, m: nat, s: nat)
    requires m >= 100 || s >= 100
    ensures Both(Both(Ok(hours), [COLON], Pair(m)), [COLON], Pair(s)) == Err(OutOfBounds)
  {
  }

  lemma ZeroSpan(t: Temporal, decimals: nat)
    requires t.Span? && HasForm(t, 0) && decimals <= 6
    ensures var length := if decimals == 0 then 8 else 9 + decimals;
            (ClockText(0, 0, 0)[1..] + [DOT] + Dec(0, 6))[..length] == SpanText(t, decimals)
  {
    hide Dec;
    assert ClockText(0, 0, 0)[1..] == Dec(0, 2) + [COLON] + Dec(0, 2) + [COLON] + Dec(0, 2);
  }

  lemma SpanJoins<A>(sign: seq<A>, h: seq<A>, m: seq<A>, s: seq<A>, f: seq<A>)
    ensures forall colon: seq<A> :: sign + [] + (h + colon + m + colon + s + [] + f)
                                    == sign + h + colon + m + colon + s + f
  {
  }

  // ---- Points ----

  function MomentOf(t: Temporal): Moment
    requires t.Point?
  {
    Date(t.year, t.month, t.day, t.hours, t.min, t.sec, t.us * 1000)
  }

  /** YYYY-MM-DD HH:MM:SS.ffffff, cut off at `length`. */
  function PointText(t: Temporal, length: nat): seq<Byte>
    requires t.Point? && length <= 26
  {
    (Dec(t.year, 4) + [DASH] + Dec(t.month, 2) + [DASH] + Dec(t.day, 2) + [SPACE]
     + Dec(t.hours, 2) + [COLON] + Dec(t.min, 2) + [COLON] + Dec(t.sec, 2) + [DOT] + Dec(t.us, 6))[..length]
  }

  predicate ShowsDate(t: Temporal)
    requires t.Point?
  {
    t.year < 10000 && t.month < 100 && t.day < 100
  }

  predicate ShowsClock(t: Temporal) {
    t.hours < 100 && t.min < 100 && t.sec < 100
  }

  lemma PointFields(t: Temporal, form: nat)
    requires t.Point? && HasForm(t, form) && form > 0
    ensures var b := Encode(t, form);
            && BinaryYear(b) == t.year && b[2] == t.month && b[3] == t.day
            && (form > 4 ==> b[4] == t.hours && b[5] == t.min && b[6] == t.sec)
            && Micros(b) == t.us
  {
    hide LE, FromLE;
    var b := Encode(t, form);
    LengthEncoding.Widths();
    FromLEInvertsLE(t.year, 2);
    assert b[..2] == LE(t.year, 2);
    FourBytes(t.us);
    if form == 11 { assert b[7..11] == LE(t.us, 4); }
  }

  /** parseBinaryDateTime delivers the fields; the empty value is the zero time. What follows
      the value is not looked at. */
  lemma PointParses(t: Temporal, form: nat, rest: seq<Byte>)
    requires t.Point? && HasForm(t, form)
    ensures ParseBinaryDateTime(form, Encode(t, form) + rest) == Ok(if form == 0 then ZeroTime else MomentOf(t))
  {
    hide Micros, BinaryYear;
    var b := Encode(t, form);
    assert (b + rest)[..form] == b;
    if form > 0 { PointFields(t, form); }
  }

  /** formatBinaryDateTime shows the fields of the value as far as the length goes, and fails
      exactly when one of the fields it shows has too many digits. */
  lemma PointFormats(t: Temporal, form: nat, length: nat)
    requires t.Point? && HasForm(t, form) && TextLength(length)
    ensures FormatBinaryDateTime(Encode(t, form), length)
         == if ShowsDate(t) && (length == 10 || ShowsClock(t)) then Ok(PointText(t, length)) else Err(OutOfBounds)
  {
    hide Dec, Pair, MicrosText, Micros, BinaryYear;
    var b := Encode(t, form);
    PointJoins(t);
    if form > 0 {
      PointFields(t, form);
      assert b[..|b|] == b;
      if ShowsDate(t) && ShowsClock(t) {
        BinaryText(b, length);
      } else if ShowsDate(t) {
        DateIs(t.year, t.month, t.day);
        assert PointText(t, 10) == DateText(t.year, t.month, t.day);
        if length > 10 { PairFails(t.hours, t.min, t.sec); }
      } else {
        DateFails(t.year, t.month, t.day);
      }
    }
  }

  lemma PointJoins(t: Temporal)
    requires t.Point?
    ensures Dec(t.year, 4) + [DASH] + Dec(t.month, 2) + [DASH] + Dec(t.day, 2) + [SPACE]
            + Dec(t.hours, 2) + [COLON] + Dec(t.min, 2) + [COLON] + Dec(t.sec, 2) + [DOT] + Dec(t.us, 6)
         == FullText(MomentOf(t), t.us)
  {
    hide Dec;
  }

  lemma PairFails(h: nat, m: nat, s: nat)
    requires h >= 100 || m >= 100 || s >= 100
    ensures Both(Both(Pair(h), [COLON], Pair(m)), [COLON], Pair(s)) == Err(OutOfBounds)
  {
  }

  lemma DateFails(year: nat, month: nat, day: nat)
    requires year >= 10000 || month >= 100 || day >= 100
    ensures Both(Both(Both(Pair(year / 100), [], Pair(year % 100)), [DASH], Pair(month)), [DASH], Pair(day))
         == Err(OutOfBounds)
  {
  }

  // ---- What the texts say ----

  lemma {:induction false} DecDenotes(n: nat, k: nat)
    requires n < Pow10(k)
    ensures Denoted(Dec(n, k)) == n
    decreases k
  {
    if k > 0 {
      DecDenotes(n / 10, k - 1);
      assert Dec(n, k)[..k - 1] == Dec(n / 10, k - 1);
    }
  }

  lemma TwoDenote(n: nat)
    requires n < 100
    ensures Denoted(Dec(n, 2)) == n
  {
    Powers();
    DecDenotes(n, 2);
  }

  /** The fraction denotes the microseconds less the digits that are cut off. */
  lemma FractionDenotes(us: nat, decimals: nat)
    requires us < 1_000_000 && 1 <= decimals <= 6
    ensures var f := Fraction(us, decimals);
            |f| == 1 + decimals && f[0] == 0x2e && Denoted(f[1..]) == us / Pow10(6 - decimals)
  {
    hide Dec;
    Powers();
    DecPrefix(us, 6, decimals);
    assert Fraction(us, decimals)[1..] == Dec(us / Pow10(6 - decimals), decimals);
    CutFits(us, decimals);
    DecDenotes(us / Pow10(6 - decimals), decimals);
  }

  lemma CutFits(us: nat, decimals: nat)
    requires us < 1_000_000 && 1 <= decimals <= 6
    ensures us / Pow10(6 - decimals) < Pow10(decimals)
  {
    Powers();
    if decimals == 1 { assert us / 100000 < 10; }
    else if decimals == 2 { assert us / 10000 < 100; }
    else if decimals == 3 { assert us / 1000 < 1000; }
    else if decimals == 4 { assert us / 100 < 10000; }
    else if decimals == 5 { assert us / 10 < 100000; }
  }

  lemma HoursDenote(hours: nat)
    ensures |HoursText(hours)| >= 2 && Denoted(HoursText(hours)) == hours
    ensures |HoursText(hours)| == 2 <==> hours < 100
    ensures HoursText(hours)[0] != DASH
  {
    if hours < 100 {
      TwoDenote(hours);
      DecTwo(hours);
    } else {
      DecimalDenotes(hours);
      assert Decimal(hours) == Decimal(hours / 100) + [Digit(hours / 10 % 10)] + [Digit(hours % 10)] by {
        DivTen(hours);
      }
    }
  }

  /** The text of a span: a minus sign for a negative one, then all hours of its days with at
      least two digits, minutes, seconds, and the leading digits of its microseconds. */
  lemma SpanTextDenotes(t: Temporal, decimals: nat)
    requires t.Span? && t.min < 100 && t.sec < 100 && t.us < 1_000_000 && decimals <= 6
    ensures var s := SpanText(t, decimals);
            var at := if t.negative then 1 else 0;
            var h := |s| - at - 6 - if decimals == 0 then 0 else 1 + decimals;
            && h >= 2 && (h == 2 <==> 24 * t.days + t.hours < 100)
            && (s[0] == 0x2d <==> t.negative)
            && Denoted(s[at..at + h]) == 24 * t.days + t.hours
            && s[at + h] == 0x3a && Denoted(s[at + h + 1..at + h + 3]) == t.min
            && s[at + h + 3] == 0x3a && Denoted(s[at + h + 4..at + h + 6]) == t.sec
            && (decimals > 0 ==> s[at + h + 6] == 0x2e && Denoted(s[at + h + 7..]) == t.us / Pow10(6 - decimals))
  {
    hide Dec, HoursText, Denoted, Pow10;
    HoursDenote(TotalHours(t));
    TwoDenote(t.min);
    TwoDenote(t.sec);
    if decimals > 0 { FractionDenotes(t.us, decimals); }
    Pieces(if t.negative then [DASH] else [], HoursText(TotalHours(t)), Dec(t.min, 2), Dec(t.sec, 2),
           Fraction(t.us, decimals));
  }

  lemma Pieces(sign: seq<Byte>, h: seq<Byte>, m: seq<Byte>, s: seq<Byte>, f: seq<Byte>)
    requires |m| == |s| == 2
    ensures var all := sign + h + [COLON] + m + [COLON] + s + f;
            var at := |sign| + |h|;
            && |all| == at + 6 + |f|
            && (sign != [] ==> all[0] == sign[0]) && (sign == [] && h != [] ==> all[0] == h[0])
            && all[|sign|..at] == h && all[at] == COLON && all[at + 1..at + 3] == m
            && all[at + 3] == COLON && all[at + 4..at + 6] == s && all[at + 6..] == f
            && (f != [] ==> all[at + 6] == f[0] && all[at + 7..] == f[1..])
  {
  }

  /** The text of a point: year, month, day, then, as far as it goes, hour, minute, second and
      the leading digits of the microseconds. */
  lemma PointTextDenotes(t: Temporal, length: nat)
    requires t.Point? && ShowsDate(t) && ShowsClock(t) && t.us < 1_000_000 && TextLength(length)
    ensures var s := PointText(t, length);
            && |s| == length
            && Denoted(s[..4]) == t.year && s[4] == 0x2d && Denoted(s[5..7]) == t.month && s[7] == 0x2d
            && Denoted(s[8..10]) == t.day
            && (length > 10 ==> && s[10] == 0x20 && Denoted(s[11..13]) == t.hours
                                && s[13] == 0x3a && Denoted(s[14..16]) == t.min
                                && s[16] == 0x3a && Denoted(s[17..19]) == t.sec)
            && (length > 19 ==> s[19] == 0x2e && Denoted(s[20..]) == t.us / Pow10(26 - length))
  {
    hide Dec, Denoted;
    Powers();
    DecDenotes(t.year, 4);
    TwoDenote(t.month);
    TwoDenote(t.day);
    TwoDenote(t.hours);
    TwoDenote(t.min);
    TwoDenote(t.sec);
    if length > 19 { FractionDenotes(t.us, length - 20); }
    PointPieces(Dec(t.year, 4), Dec(t.month, 2), Dec(t.day, 2), Dec(t.hours, 2), Dec(t.min, 2), Dec(t.sec, 2),
                Dec(t.us, 6), length);
  }

  lemma PointPieces(y: seq<Byte>, mo: seq<Byte>, d: seq<Byte>, h: seq<Byte>, mi: seq<Byte>, s: seq<Byte>,
      f: seq<Byte>, length: nat)
    requires |y| == 4 && |mo| == |d| == |h| == |mi| == |s| == 2 && |f| == 6 && TextLength(length)
    ensures var all := (y + [DASH] + mo + [DASH] + d + [SPACE] + h + [COLON] + mi + [COLON] + s + [DOT] + f)[..length];
            && |all| == length
            && all[..4] == y && all[4] == DASH && all[5..7] == mo && all[7] == DASH && all[8..10] == d
            && (length > 10 ==> && all[10] == SPACE && all[11..13] == h
                                && all[13] == COLON && all[14..16] == mi
                                && all[16] == COLON && all[17..19] == s)
            && (length > 19 ==> all[19] == DOT && all[20..] == f[..length - 20])
  {
    var date, clock := y + [DASH] + mo + [DASH] + d, [SPACE] + h + [COLON] + mi + [COLON] + s;
    var all := y + [DASH] + mo + [DASH] + d + [SPACE] + h + [COLON] + mi + [COLON] + s + [DOT] + f;
    assert all == date + clock + [DOT] + f;
    TextPrefix(date, clock, f, length);
    assert date[..4] == y && date[5..7] == mo && date[8..10] == d;
    assert clock[1..3] == h && clock[4..6] == mi && clock[7..9] == s;
    assert all[..length][..10] == date;
    SliceOfSlice(all[..length], 0, 10, 0, 4);
    SliceOfSlice(all[..length], 0, 10, 5, 7);
    SliceOfSlice(all[..length], 0, 10, 8, 10);
    if length > 10 {
      assert all[..length][10..19] == clock;
      SliceOfSlice(all[..length], 10, 19, 1, 3);
      SliceOfSlice(all[..length], 10, 19, 4, 6);
      SliceOfSlice(all[..length], 10, 19, 7, 9);
    }
  }
}
