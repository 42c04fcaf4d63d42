/** Client-side interpolation: the arguments of a query written as literals into its text. */
module Interpolation {
  import opened Bytes
  import opened Buffers
  import opened Connections
  import opened Decimals
  import opened Escaping
  import opened Statements
  import DateTimes

  const MARK: Byte := 0x3f
  const NO_BACKSLASH_ESCAPES_BIT: nat := 9

  /** How literals are written: the escape mode, and the text of a float's bit pattern. */
  datatype Style = Style(backslash: bool, floatText: nat -> seq<Byte>)

  // ---- Literals ----

  function Quoted(v: seq<Byte>, backslash: bool): seq<Byte> {
    [QUOTE] + (Escaped(v, backslash) + [QUOTE])
  }

  function LiteralOf(a: Arg, style: Style): Result<seq<Byte>, Error> {
    match a
    case Nil => Ok(Ascii("NULL"))
    case Int64(i) => Ok(Signed(i))
    case Uint64(u) => Ok(Decimal(u))
    case Float64(bits) => Ok(style.floatText(bits))
    case Boolean(b) => Ok(if b then Ascii("1") else Ascii("0"))
    case Time(t) =>
      if t.Date? && !(1 <= t.year <= 9999) then Err(YearRange)
      else Ok([QUOTE] + (TimeText(t) + [QUOTE]))
    case Json(raw) => Ok(Quoted(if raw.None? then [] else raw.value, style.backslash))
    case Blob(v) => Ok(if v.None? then Ascii("NULL") else Ascii("_binary") + Quoted(v.value, style.backslash))
    case Str(s) => Ok(Quoted(s, style.backslash))
    case Other => Err(Skip)
  }

  // ---- The text ----

  /** Where the next placeholder is; the length if there is none. */
  function NextMark(q: seq<Byte>): (m: nat)
    ensures m <= |q| && (m < |q| ==> q[m] == MARK)
    ensures forall i | 0 <= i < m :: q[i] != MARK
  {
    if q == [] || q[0] == MARK then 0 else 1 + NextMark(q[1..])
  }

  function Marks(q: seq<Byte>): nat {
    if q == [] then 0 else (if q[0] == MARK then 1 else 0) + Marks(q[1..])
  }

  lemma {:induction false} MarksFromNext(q: seq<Byte>)
    ensures NextMark(q) == |q| ==> Marks(q) == 0
    ensures NextMark(q) < |q| ==> Marks(q) == 1 + Marks(q[NextMark(q) + 1..])
  {
    if q != [] && q[0] != MARK {
      MarksFromNext(q[1..]);
      if NextMark(q) < |q| {
        assert q[1..][NextMark(q[1..]) + 1..] == q[NextMark(q) + 1..];
      }
    }
  }

  /** The segments of the query interleaved with the literals. */
  function Weave(q: seq<Byte>, lits: seq<seq<Byte>>): seq<Byte>
    decreases |lits|
  {
    if lits == [] || NextMark(q) == |q| then q
    else q[..NextMark(q)] + lits[0] + Weave(q[NextMark(q) + 1..], lits[1..])
  }

  /** What the loop builds behind `acc`; the size test is made after every argument but nil. */
  function Build(acc: seq<Byte>, q: seq<Byte>, args: seq<Arg>, style: Style, limit: int): Result<seq<Byte>, Error>
    requires Marks(q) == |args|
    decreases |args|
  {
    MarksFromNext(q);
    if args == [] then Ok(acc + q)
    else match LiteralOf(args[0], style)
      case Err(e) => Err(e)
      case Ok(lit) =>
        var grown := acc + q[..NextMark(q)] + lit;
        if !args[0].Nil? && |grown| + 4 > limit then Err(Skip)
        else Build(grown, q[NextMark(q) + 1..], args[1..], style, limit)
  }

  /** The last turn of the loop, and every other one. */
  lemma BuildEnd(acc: seq<Byte>, q: seq<Byte>, style: Style, limit: int)
    requires Marks(q) == 0
    ensures Build(acc, q, [], style, limit) == Ok(acc + q)
  {
  }

  lemma BuildStep(acc: seq<Byte>, q: seq<Byte>, args: seq<Arg>, style: Style, limit: int)
    requires Marks(q) == |args| && NextMark(q) < |q|
    ensures args != [] && Marks(q[NextMark(q) + 1..]) == |args| - 1
    ensures match LiteralOf(args[0], style)
            case Err(e) => Build(acc, q, args, style, limit) == Err(e)
            case Ok(lit) =>
              var grown := acc + q[..NextMark(q)] + lit;
              Build(acc, q, args, style, limit)
              == if !args[0].Nil? && |grown| + 4 > limit then Err(Skip)
                 else Build(grown, q[NextMark(q) + 1..], args[1..], style, limit)
  {
    hide LiteralOf;
    MarksFromNext(q);
  }

  // ---- The loop ----

  predicate Timely(a: Arg) {
    a.Time? && a.t.Date? ==> DateTimes.InRange(a.t)
  }

  method AppendTime(buf: Slice, t: DateTimes.Moment) returns (r: Slice, err: Option<Error>)
    requires buf.Valid() && Timely(Time(t))
    modifies buf.arr
    ensures r.Valid() && (r.arr == buf.arr || fresh(r.arr))
    ensures err.Some? <==> t.Date? && !(1 <= t.year <= 9999)
    ensures err.Some? ==> err == Some(YearRange)
    ensures err.None? ==> r.Bytes() == old(buf.Bytes()) + ([QUOTE] + (TimeText(t) + [QUOTE]))
  {
    hide DateTimes.Text;
    r, err := buf, None;
    if t.ZeroTime? {
      r := Append(buf, [QUOTE] + (DateTimes.DateText(0, 0, 0) + [QUOTE]));
      return;
    }
    r := Append(buf, [QUOTE]);
    var text := DateTimes.AppendDateTime([], t);
    match text {
      case Err(_) => err := Some(YearRange);
      case Ok(b) =>
        EmptyLeft(DateTimes.Text(t));
        assert b == DateTimes.Text(t);
        r := Append(r, b);
        r := Append(r, [QUOTE]);
        Associate(old(buf.Bytes()), [QUOTE], b);
        Associate(old(buf.Bytes()), [QUOTE] + b, [QUOTE]);
        Associate([QUOTE], b, [QUOTE]);
    }
  }

  method AppendQuoted(buf: Slice, opening: seq<Byte>, v: seq<Byte>, backslash: bool) returns (r: Slice)
    requires buf.Valid()
    modifies buf.arr
    ensures r.Valid() && (r.arr == buf.arr || fresh(r.arr))
    ensures r.Bytes() == old(buf.Bytes()) + (opening + (Escaped(v, backslash) + [QUOTE]))
  {
    hide Escaped;
    r := Append(buf, opening);
    r := Escape(r, v, backslash);
    r := Append(r, [QUOTE]);
    Associate(old(buf.Bytes()), opening, Escaped(v, backslash));
    Associate(old(buf.Bytes()), opening + Escaped(v, backslash), [QUOTE]);
    Associate(opening, Escaped(v, backslash), [QUOTE]);
  }

  method AppendLiteral(buf: Slice, a: Arg, style: Style) returns (r: Slice, err: Option<Error>)
    requires buf.Valid() && Timely(a)
    modifies buf.arr
    ensures r.Valid() && (r.arr == buf.arr || fresh(r.arr))
    ensures match LiteralOf(a, style)
            case Err(e) => err == Some(e)
            case Ok(lit) => err == None && r.Bytes() == old(buf.Bytes()) + lit
  {
    hide Escaped, Signed, Decimal, DateTimes.Text, Slice.Bytes;
    r, err := buf, None;
    match a {
      case Nil => r := Append(buf, Ascii("NULL"));
      case Int64(i) => r := Append(buf, Signed(i));
      case Uint64(u) => r := Append(buf, Decimal(u));
      case Float64(bits) => r := Append(buf, style.floatText(bits));
      case Boolean(b) => r := Append(buf, if b then Ascii("1") else Ascii("0"));
      case Time(t) => r, err := AppendTime(buf, t);
      case Json(raw) => r := AppendQuoted(buf, [QUOTE], if raw.None? then [] else raw.value, style.backslash);
      case Blob(v) =>
        if v.None? {
          r := Append(buf, Ascii("NULL"));
        } else {
          r := AppendQuoted(buf, Ascii("_binary") + [QUOTE], v.value, style.backslash);
          Associate(Ascii("_binary"), [QUOTE], Escaped(v.value, style.backslash) + [QUOTE]);
        }
      case Str(s) => r := AppendQuoted(buf, [QUOTE], s, style.backslash);
      case Other => err := Some(Skip);
    }
  }

  /** One placeholder: the segment in front of it and the literal. */
  method AppendArgument(buf: Slice, segment: seq<Byte>, a: Arg, style: Style, limit: int)
    returns (r: Slice, err: Option<Error>)
    requires buf.Valid() && Timely(a)
    modifies buf.arr
    ensures r.Valid() && (r.arr == buf.arr || fresh(r.arr))
    ensures match LiteralOf(a, style)
            case Err(e) => err == Some(e)
            case Ok(lit) =>
              r.Bytes() == old(buf.Bytes()) + segment + lit
              && err == if !a.Nil? && |r.Bytes()| + 4 > limit then Some(Skip) else None
  {
    hide LiteralOf;
    r := Append(buf, segment);
    r, err := AppendLiteral(r, a, style);
    if err.None? && !a.Nil? && r.len + 4 > limit {
      err := Some(Skip);
    }
  }

  function StyleOf(status: nat, floatText: nat -> seq<Byte>): Style {
    Style(!Bit(status, NO_BACKSLASH_ESCAPES_BIT), floatText)
  }

  /** interpolateParams, written over the connection's own buffer. */
  method InterpolateParams(mc: MysqlConn, query: seq<Byte>, args: seq<Arg>, floatText: nat -> seq<Byte>)
    returns (r: Result<seq<Byte>, Error>)
    requires mc.Valid() && forall a | a in args :: Timely(a)
    modifies mc.buf.buf
    ensures mc.Valid() && mc.buf.Queue() == old(mc.buf.Queue())
    ensures r == if Marks(query) != |args| then Err(Skip)
                 else if mc.buf.length > 0 then Err(InvalidConn)
                 else Build([], query, args, StyleOf(mc.status, floatText), mc.maxAllowedPacket)
  {
    hide LiteralOf, Marks, NextMark, Build, Buffer.Queue;
    if Marks(query) != |args| {
      return Err(Skip);
    }
    var taken := mc.buf.TakeCompleteBuffer();
    if taken.None? {
      return Err(InvalidConn);
    }
    mc.buf.EmptyQueue();
    var style, limit := StyleOf(mc.status, floatText), mc.maxAllowedPacket;
    var buf := Slice(taken.value.arr, 0, 0);
    var i, argPos := 0, 0;
    assert query[0..] == query && args[0..] == args;
    while i < |query|
      invariant 0 <= i <= |query| && 0 <= argPos <= |args| && mc.Valid() && mc.buf.length == 0
      invariant buf.Valid() && (buf.arr == mc.buf.buf || fresh(buf.arr))
      invariant Marks(query[i..]) == |args[argPos..]|
      invariant Build(buf.Bytes(), query[i..], args[argPos..], style, limit)
                == Build([], query, args, style, limit)
    {
      var rest := query[i..];
      ghost var left := args[argPos..];
      var q := NextMark(rest);
      if q == |rest| {
        MarksFromNext(rest);
        assert left == [];
        BuildEnd(buf.Bytes(), rest, style, limit);
        buf := Append(buf, rest);
        mc.buf.EmptyQueue();
        return Ok(buf.Bytes());
      }
      BuildStep(buf.Bytes(), rest, left, style, limit);
      var err;
      buf, err := AppendArgument(buf, rest[..q], args[argPos], style, limit);
      if err.Some? {
        mc.buf.EmptyQueue();
        return Err(err.value);
      }
      assert rest[q + 1..] == query[i + q + 1..] && left[1..] == args[argPos + 1..];
      i := i + q + 1;
      argPos := argPos + 1;
    }
    mc.buf.EmptyQueue();
    assert query[i..] == [];
    MarksFromNext([]);
    assert args[argPos..] == [];
    BuildEnd(buf.Bytes(), [], style, limit);
    assert buf.Bytes() + [] == buf.Bytes();
    r := Ok(buf.Bytes());
  }

  // ---- What the text is ----

  predicate AllLiterals(args: seq<Arg>, style: Style) {
    forall i | 0 <= i < |args| :: LiteralOf(args[i], style).Ok?
  }

  function Literals(args: seq<Arg>, style: Style): (r: seq<seq<Byte>>)
    requires AllLiterals(args, style)
    ensures |r| == |args| && forall i | 0 <= i < |args| :: r[i] == LiteralOf(args[i], style).value
  {
    seq(|args|, i requires 0 <= i < |args| => LiteralOf(args[i], style).value)
  }

  /** The query behind its first `k` placeholders. */
  function Rest(q: seq<Byte>, k: nat): seq<Byte>
    requires k <= Marks(q)
    ensures Marks(Rest(q, k)) == Marks(q) - k
  {
    MarksFromNext(q);
    if k == 0 then q else Rest(q[NextMark(q) + 1..], k - 1)
  }

  /** The text up to the last of `lits`. */
  function Upto(q: seq<Byte>, lits: seq<seq<Byte>>): seq<Byte>
    requires |lits| <= Marks(q)
    decreases |lits|
  {
    MarksFromNext(q);
    if lits == [] then [] else q[..NextMark(q)] + lits[0] + Upto(q[NextMark(q) + 1..], lits[1..])
  }

  /** The text splits at every placeholder. */
  lemma {:induction false} WeaveSplits(q: seq<Byte>, lits: seq<seq<Byte>>, k: nat)
    requires |lits| == Marks(q) && k <= |lits|
    ensures Weave(q, lits) == Upto(q, lits[..k]) + Weave(Rest(q, k), lits[k..])
    decreases k
  {
    MarksFromNext(q);
    if k == 0 {
      EmptyLeft(Weave(q, lits));
      assert lits[0..] == lits;
    } else {
      var m := NextMark(q);
      WeaveSplits(q[m + 1..], lits[1..], k - 1);
      assert lits[1..][k - 1..] == lits[k..] && lits[..k][1..] == lits[1..][..k - 1];
      Associate(q[..m] + lits[0], Upto(q[m + 1..], lits[1..][..k - 1]), Weave(Rest(q, k), lits[k..]));
    }
  }

  /** The size test behind argument `k`, as a condition on the finished text. */
  predicate RoomAt(acc: nat, q: seq<Byte>, args: seq<Arg>, style: Style, limit: int, k: nat)
    requires AllLiterals(args, style) && Marks(q) == |args| && k < |args|
  {
    !args[k].Nil? ==> acc + |Upto(q, Literals(args, style)[..k + 1])| + 4 <= limit
  }

  predicate LeavesRoom(acc: nat, q: seq<Byte>, args: seq<Arg>, style: Style, limit: int)
    requires AllLiterals(args, style) && Marks(q) == |args|
  {
    forall k | 0 <= k < |args| :: RoomAt(acc, q, args, style, limit, k)
  }

  lemma NothingToFit(acc: nat, q: seq<Byte>, style: Style, limit: int)
    requires Marks(q) == 0
    ensures LeavesRoom(acc, q, [], style, limit)
  {
  }

  lemma LiteralsStep(args: seq<Arg>, style: Style)
    requires args != [] && AllLiterals(args, style) && AllLiterals(args[1..], style)
    ensures Literals(args, style) == [LiteralOf(args[0], style).value] + Literals(args[1..], style)
  {
    hide LiteralOf;
  }

  lemma UptoNone(q: seq<Byte>)
    ensures Upto(q, []) == []
  {
  }

  lemma UptoStep(q: seq<Byte>, lit: seq<Byte>, lits: seq<seq<Byte>>, k: nat)
    requires Marks(q) == 1 + |lits| && k <= |lits|
    ensures NextMark(q) < |q| && Marks(q[NextMark(q) + 1..]) == |lits|
    ensures |Upto(q, ([lit] + lits)[..k + 1])| == NextMark(q) + |lit| + |Upto(q[NextMark(q) + 1..], lits[..k])|
  {
    hide Marks;
    MarksFromNext(q);
    assert ([lit] + lits)[..k + 1][1..] == lits[..k];
  }

  /** The same questions about the query and arguments behind the first placeholder. */
  lemma RoomStep(acc: nat, q: seq<Byte>, args: seq<Arg>, style: Style, limit: int, k: nat, grown: nat)
    requires k < |args| && AllLiterals(args, style) && AllLiterals(args[1..], style) && Marks(q) == |args|
    requires grown == acc + NextMark(q) + |LiteralOf(args[0], style).value|
    ensures NextMark(q) < |q| && Marks(q[NextMark(q) + 1..]) == |args| - 1
    ensures RoomAt(acc, q, args, style, limit, k)
            <==> if k == 0 then args[0].Nil? || grown + 4 <= limit
                 else RoomAt(grown, q[NextMark(q) + 1..], args[1..], style, limit, k - 1)
  {
    hide LiteralOf, Marks, Upto, NextMark, Literals;
    LiteralsStep(args, style);
    UptoStep(q, LiteralOf(args[0], style).value, Literals(args[1..], style), k);
    UptoNone(q[NextMark(q) + 1..]);
  }

  lemma LeavesRoomStep(acc: nat, q: seq<Byte>, args: seq<Arg>, style: Style, limit: int, grown: nat)
    requires args != [] && AllLiterals(args, style) && AllLiterals(args[1..], style) && Marks(q) == |args|
    requires grown == acc + NextMark(q) + |LiteralOf(args[0], style).value|
    ensures NextMark(q) < |q| && Marks(q[NextMark(q) + 1..]) == |args| - 1
    ensures LeavesRoom(acc, q, args, style, limit)
            <==> (args[0].Nil? || grown + 4 <= limit)
                 && LeavesRoom(grown, q[NextMark(q) + 1..], args[1..], style, limit)
  {
    hide LiteralOf, Marks, RoomAt, NextMark;
    RoomStep(acc, q, args, style, limit, 0, grown);
    var rest, more := q[NextMark(q) + 1..], args[1..];
    forall k | 0 < k < |args|
      ensures RoomAt(acc, q, args, style, limit, k) == RoomAt(grown, rest, more, style, limit, k - 1)
    {
      RoomStep(acc, q, args, style, limit, k, grown);
    }
    if LeavesRoom(acc, q, args, style, limit) {
      forall k | 0 <= k < |more|
        ensures RoomAt(grown, rest, more, style, limit, k)
      {
        assert RoomAt(acc, q, args, style, limit, k + 1);
      }
    }
  }

  /** Interpolation succeeds if and only if every argument has a literal and the text up to
      each argument but nil leaves four bytes; the text is then the woven one. */
  lemma {:induction false} BuildSucceedsIff(acc: seq<Byte>, q: seq<Byte>, args: seq<Arg>, style: Style, limit: int)
    requires Marks(q) == |args|
    ensures Build(acc, q, args, style, limit).Ok?
            <==> AllLiterals(args, style) && LeavesRoom(|acc|, q, args, style, limit)
    ensures Build(acc, q, args, style, limit).Ok?
            ==> Build(acc, q, args, style, limit).value == acc + Weave(q, Literals(args, style))
    decreases |args|
  {
    hide LiteralOf, LeavesRoom, Marks, Upto;
    MarksFromNext(q);
    if args == [] {
      NothingToFit(|acc|, q, style, limit);
    } else {
      var m := NextMark(q);
      var rest, more := q[m + 1..], args[1..];
      assert AllLiterals(args, style) <==> LiteralOf(args[0], style).Ok? && AllLiterals(more, style) by {
        assert forall i | 1 <= i < |args| :: args[i] == more[i - 1];
      }
      if LiteralOf(args[0], style).Ok? {
        var lit := LiteralOf(args[0], style).value;
        var grown := acc + q[..m] + lit;
        BuildSucceedsIff(grown, rest, more, style, limit);
        if AllLiterals(args, style) {
          LeavesRoomStep(|acc|, q, args, style, limit, |grown|);
          assert Literals(args, style)[1..] == Literals(more, style);
          Associate(acc, q[..m], lit);
          Associate(acc, q[..m] + lit, Weave(rest, Literals(more, style)));
        }
      }
    }
  }

  // ---- What the server reads ----

  predicate IsText(a: Arg) {
    a.Str? || a.Json? || (a.Blob? && a.blob.Some?)
  }

  function TextOf(a: Arg): seq<Byte>
    requires IsText(a)
  {
    match a
    case Str(s) => s
    case Json(raw) => if raw.None? then [] else raw.value
    case Blob(v) => v.value
  }

  function Opening(a: Arg): seq<Byte> {
    if a.Blob? then Ascii("_binary") + [QUOTE] else [QUOTE]
  }

  /** Where the value of argument `k` starts in the text, and what follows its literal. */
  function ValueAt(q: seq<Byte>, args: seq<Arg>, style: Style, k: nat): nat
    requires AllLiterals(args, style) && Marks(q) == |args| && k < |args|
  {
    |Upto(q, Literals(args, style)[..k])| + NextMark(Rest(q, k)) + |Opening(args[k])|
  }

  function After(q: seq<Byte>, args: seq<Arg>, style: Style, k: nat): seq<Byte>
    requires AllLiterals(args, style) && Marks(q) == |args| && k < |args|
  {
    Weave(Rest(q, k + 1), Literals(args, style)[k + 1..])
  }

  /** The query has a quote right behind placeholder `k`, or another placeholder whose literal
      starts with one. */
  predicate QuoteFollows(q: seq<Byte>, args: seq<Arg>, style: Style, k: nat)
    requires Marks(q) == |args| && k < |args|
  {
    var rest := Rest(q, k + 1);
    rest != []
    && (rest[0] == QUOTE || (rest[0] == MARK && k + 1 < |args| && OpensWithQuote(args[k + 1], style)))
  }

  predicate OpensWithQuote(a: Arg, style: Style) {
    a.Str? || a.Json? || a.Time?
    || (a.Float64? && style.floatText(a.bits) != [] && style.floatText(a.bits)[0] == QUOTE)
  }

  lemma LiteralOpens(a: Arg, style: Style)
    requires LiteralOf(a, style).Ok? && forall bits :: style.floatText(bits) != []
    ensures var lit := LiteralOf(a, style).value;
            lit != [] && (lit[0] == QUOTE <==> OpensWithQuote(a, style))
  {
  }

  lemma AfterOpens(q: seq<Byte>, args: seq<Arg>, style: Style, k: nat)
    requires AllLiterals(args, style) && Marks(q) == |args| && k < |args|
    requires forall bits :: style.floatText(bits) != []
    ensures var rest := After(q, args, style, k);
            (rest != [] && rest[0] == QUOTE) <==> QuoteFollows(q, args, style, k)
  {
    hide LiteralOf, Marks;
    var rest, lits := Rest(q, k + 1), Literals(args, style)[k + 1..];
    MarksFromNext(rest);
    if lits != [] {
      LiteralOpens(args[k + 1], style);
      assert lits[0] == LiteralOf(args[k + 1], style).value;
    }
  }

  lemma ArgumentSplits(q: seq<Byte>, lits: seq<seq<Byte>>, k: nat)
    requires |lits| == Marks(q) && k < |lits|
    ensures var rest := Rest(q, k);
            Weave(q, lits) == Upto(q, lits[..k])
                              + (rest[..NextMark(rest)] + lits[k] + Weave(Rest(q, k + 1), lits[k + 1..]))
  {
    hide Marks, Upto;
    WeaveSplits(q, lits, k);
    RestStep(q, k);
    assert lits[k..][0] == lits[k] && lits[k..][1..] == lits[k + 1..];
  }

  lemma TextLiteral(a: Arg, style: Style)
    requires IsText(a)
    ensures LiteralOf(a, style) == Ok(Opening(a) + (Escaped(TextOf(a), style.backslash) + [QUOTE]))
  {
    Associate(Ascii("_binary"), [QUOTE], Escaped(TextOf(a), style.backslash) + [QUOTE]);
  }

  /** From the start of its value, the server reads exactly argument `k` and stops behind its
      closing quote, if and only if no quote follows; the literals before it do not matter. */
  lemma ArgumentReadBackIff(q: seq<Byte>, args: seq<Arg>, style: Style, limit: int, k: nat)
    requires Marks(q) == |args| && k < |args| && IsText(args[k])
    requires Build([], q, args, style, limit).Ok? && forall bits :: style.floatText(bits) != []
    ensures AllLiterals(args, style)
    ensures var text, at := Build([], q, args, style, limit).value, ValueAt(q, args, style, k);
            at <= |text|
            && (ReadLiteral(text[at..], style.backslash) == Some((TextOf(args[k]), After(q, args, style, k)))
                <==> !QuoteFollows(q, args, style, k))
  {
    hide Marks, Upto, Escaped, ReadLiteral, Build, LeavesRoom, LiteralOf, QuoteFollows, Weave, Rest, Opening;
    BuildSucceedsIff([], q, args, style, limit);
    var lits := Literals(args, style);
    EmptyLeft(Weave(q, lits));
    ArgumentSplits(q, lits, k);
    TextLiteral(args[k], style);
    var rest, after := Rest(q, k), After(q, args, style, k);
    DropHead(Upto(q, lits[..k]), rest[..NextMark(rest)], Opening(args[k]),
             Escaped(TextOf(args[k]), style.backslash), [QUOTE], after);
    LiteralReadBackIff(TextOf(args[k]), after, style.backslash);
    AfterOpens(q, args, style, k);
  }

  lemma {:induction false} RestStep(q: seq<Byte>, k: nat)
    requires k < Marks(q)
    ensures NextMark(Rest(q, k)) < |Rest(q, k)|
    ensures Rest(q, k + 1) == Rest(q, k)[NextMark(Rest(q, k)) + 1..]
    decreases k
  {
    hide Marks, NextMark;
    MarksFromNext(q);
    MarksFromNext(Rest(q, k));
    if k > 0 {
      RestStep(q[NextMark(q) + 1..], k - 1);
    }
  }

  lemma DropHead<A>(head: seq<A>, segment: seq<A>, opening: seq<A>, v: seq<A>, close: seq<A>, after: seq<A>)
    ensures var text := head + (segment + (opening + (v + close)) + after);
            text[|head| + |segment| + |opening|..] == v + (close + after)
  {
    var text := head + (segment + (opening + (v + close)) + after);
    Associate(segment, opening + (v + close), after);
    Associate(opening, v + close, after);
    Associate(v, close, after);
    assert text == head + segment + opening + (v + (close + after));
  }

  /** Backslashes escape exactly when the status bit 0x200 is clear. */
  lemma StyleFollowsServer(status: nat, floatText: nat -> seq<Byte>)
    ensures StyleOf(status, floatText).backslash <==> status / 0x200 % 2 == 0
  {
    hide Bit;
    ThreeBitsDown(status, 6);
    ThreeBitsDown(status / 8, 3);
    ThreeBitsDown(status / 64, 0);
    BitZero(status / 512);
    assert status / 8 / 8 == status / 64 && status / 64 / 8 == status / 512;
  }

  lemma BitZero(b: nat)
    ensures Bit(b, 0) <==> b % 2 == 1
  {
  }

  lemma ThreeBitsDown(b: nat, k: nat)
    ensures Bit(b, k + 3) == Bit(b / 8, k)
  {
    assert Bit(b, k + 3) == Bit(b / 2, k + 2) == Bit(b / 2 / 2, k + 1) == Bit(b / 2 / 2 / 2, k);
    assert b / 2 / 2 / 2 == b / 8;
  }

  /** The same for the text that interpolateParams returns, read by a server whose status bit
      0x200 says whether it takes backslashes literally. */
  lemma ServerReadsArgumentIff(status: nat, q: seq<Byte>, args: seq<Arg>, floatText: nat -> seq<Byte>, limit: int,
      k: nat)
    requires Marks(q) == |args| && k < |args| && IsText(args[k])
    requires Build([], q, args, StyleOf(status, floatText), limit).Ok? && forall bits :: floatText(bits) != []
    ensures var style := StyleOf(status, floatText);
            && AllLiterals(args, style)
            && var text, at := Build([], q, args, style, limit).value, ValueAt(q, args, style, k);
               at <= |text|
               && (ReadLiteral(text[at..], status / 0x200 % 2 == 0)
                   == Some((TextOf(args[k]), After(q, args, style, k)))
                   <==> !QuoteFollows(q, args, style, k))
  {
    hide Marks, Build, ReadLiteral, QuoteFollows, After, ValueAt, LiteralOf, Bit;
    StyleFollowsServer(status, floatText);
    ArgumentReadBackIff(q, args, StyleOf(status, floatText), limit, k);
  }

  /** The other literals mean their arguments: NULL, integers in decimal, truth values as 1 and
      0, and times as the parser of date texts reads them, down to the microsecond. Texts open
      with a quote, bytes behind the introducer of binary strings. */
  lemma OtherLiteralsDenote(a: Arg, style: Style)
    requires LiteralOf(a, style).Ok? && Timely(a)
    ensures var lit := LiteralOf(a, style).value;
            && (a.Int64? ==> DenotedSigned(lit) == a.i)
            && (a.Uint64? ==> Denoted(lit) == a.u)
            && (a.Float64? ==> lit == style.floatText(a.bits))
            && (a.Boolean? ==> lit == [if a.b then 0x31 else 0x30])
            && (a.Nil? || a == Blob(None) ==> lit == [0x4e, 0x55, 0x4c, 0x4c])
            && (a.Str? || a.Json? ==> |lit| > 1 && lit[0] == 0x27)
            && (a.Blob? && a.blob.Some? ==>
                  |lit| > 8 && lit[..8] == [0x5f, 0x62, 0x69, 0x6e, 0x61, 0x72, 0x79, 0x27])
    ensures a.Time? ==>
              var lit := LiteralOf(a, style).value;
              && |lit| >= 2 && lit[0] == lit[|lit| - 1] == 0x27
              && (DateTimes.ParseDateTime(lit[1..|lit| - 1]) == Ok(a.t)
                  <==> a.t.ZeroTime? || a.t.nsec % 1000 == 0)
  {
    match a {
      case Int64(i) => SignedDenotes(i);
      case Uint64(u) => DecimalDenotes(u);
      case Time(t) =>
        var lit := LiteralOf(a, style).value;
        assert lit[1..|lit| - 1] == TimeText(t);
        if t.Date? { DateTimes.ParseInvertsTextIffMicroseconds(t); }
      case _ =>
    }
  }
}
