/** The server's side of COM_STMT_EXECUTE: reading the long-data commands and the packet, and
    the proof that it recovers every argument. */
module StatementDecoding {
  import opened Bitmaps
  import opened Bytes
  import opened LengthEncoding
  import opened LongData
  import opened Statements
  import DateTimes
  import Framing

  /** What the server stores for a parameter. */
  datatype Param = PNull | PInt(i: int) | PUint(u: nat) | PDouble(bits: nat) | PTiny(b: Byte) | PString(s: seq<Byte>)

  /** What an argument stands for. */
  function Meaning(a: Arg): Param
    requires Encodable(a)
  {
    if IsNull(a) then PNull
    else match a
      case Int64(i) => PInt(i)
      case Uint64(u) => PUint(u)
      case Float64(bits) => PDouble(bits)
      case Boolean(b) => PTiny(if b then 1 else 0)
      case Time(t) => PString(TimeText(t))
      case Blob(v) => PString(v.value)
      case Json(v) => PString(v.value)
      case Str(s) => PString(s)
      case _ => PNull
  }

  function Signed(u: nat): int {
    if u < TWO_63 then u else u - TWO_64
  }

  /** One value by its type; None if the packet is not well formed. */
  function DecodeValue(t: (Byte, Byte), q: seq<Byte>): Option<(Param, nat)> {
    if t.0 == FIELD_TYPE_NULL then Some((PNull, 0))
    else if t.0 == FIELD_TYPE_LONG_LONG then
      if |q| < 8 then None
      else Some((if t.1 == UNSIGNED then PUint(FromLE(q[..8])) else PInt(Signed(FromLE(q[..8]))), 8))
    else if t.0 == FIELD_TYPE_DOUBLE then
      if |q| < 8 then None else Some((PDouble(FromLE(q[..8])), 8))
    else if t.0 == FIELD_TYPE_TINY then
      if |q| < 1 then None else Some((PTiny(q[0]), 1))
    else if t.0 == FIELD_TYPE_STRING then
      match ReadString(q)
      case Str(s, false, n) => if n <= |q| then Some((PString(s), n)) else None
      case _ => None
    else None
  }

  /** The parameters from number `i` on, the packet's values starting at `q`. */
  function DecodeParams(mask: seq<Byte>, types: seq<Byte>, long: map<nat, seq<Byte>>, i: nat, n: nat, q: seq<Byte>)
    : Option<seq<Param>>
    requires i <= n && |mask| == MaskLen(n) && |types| == 2 * n
    decreases n - i
  {
    if i == n then
      if q == [] then Some([]) else None
    else if Bit(mask[i / 8], i % 8) then
      Cons(PNull, DecodeParams(mask, types, long, i + 1, n, q))
    else if i in long then
      Cons(PString(long[i]), DecodeParams(mask, types, long, i + 1, n, q))
    else match DecodeValue((types[2 * i], types[2 * i + 1]), q)
      case None => None
      case Some((p, used)) =>
        if used > |q| then None else Cons(p, DecodeParams(mask, types, long, i + 1, n, q[used..]))
  }

  function Cons(p: Param, rest: Option<seq<Param>>): Option<seq<Param>> {
    if rest.None? then None else Some([p] + rest.value)
  }

  /** The packet body of a statement with `n` parameters. */
  function DecodeExec(body: seq<Byte>, n: nat, long: map<nat, seq<Byte>>): Option<seq<Param>> {
    if n == 0 then if |body| == 10 then Some([]) else None
    else
      var typesAt := 10 + MaskLen(n) + 1;
      if |body| < typesAt + 2 * n || body[typesAt - 1] != 1 then None
      else DecodeParams(body[10..typesAt - 1], body[typesAt..typesAt + 2 * n], long, 0, n, body[typesAt + 2 * n..])
  }

  // ---- The null mask ----

  /** Bit i of the mask is set if and only if argument i is NULL. */
  lemma MaskBitIffNull(args: seq<Arg>, i: nat)
    requires i < |args|
    ensures i / 8 < MaskLen(|args|) && (Bit(MaskUpto(args, |args|)[i / 8], i % 8) <==> IsNull(args[i]))
  {
    BitmapBits(Nulls(args), 0, |args|, i);
  }

  lemma {:induction false} TypesAt(args: seq<Arg>, k: nat, j: nat)
    requires j < k <= |args|
    ensures TypesUpto(args, k)[2 * j] == TypeOf(args[j]).0 && TypesUpto(args, k)[2 * j + 1] == TypeOf(args[j]).1
    decreases k
  {
    if j < k - 1 {
      TypesAt(args, k - 1, j);
    }
  }

  // ---- Values ----

  lemma ShortStringRead(s: seq<Byte>, rest: seq<Byte>)
    requires Fits(s)
    ensures var q := ShortString(s) + rest;
            DecodeValue((FIELD_TYPE_STRING, 0), q) == Some((PString(s), |ShortString(s)|))
  {
    ReadStringInvertsEncodeString(s, rest);
  }

  lemma WordRead(v: nat, rest: seq<Byte>)
    requires v < TWO_64
    ensures FromLE((LE(v, 8) + rest)[..8]) == v
  {
    assert (LE(v, 8) + rest)[..8] == LE(v, 8);
    Widths();
    FromLEInvertsLE(v, 8);
  }

  lemma TimeTextFits(t: DateTimes.Moment)
    requires GoodArg(Time(t)) && Encodable(Time(t))
    ensures Fits(TimeText(t))
  {
    Widths();
  }

  /** The value part of an argument that is neither NULL nor long is read back by its type. */
  lemma ValueRead(a: Arg, longDataSize: nat, rest: seq<Byte>)
    requires GoodArg(a) && Encodable(a) && !IsNull(a) && !IsLong(a, longDataSize)
    ensures DecodeValue(TypeOf(a), ValueOf(a, longDataSize) + rest) == Some((Meaning(a), |ValueOf(a, longDataSize)|))
  {
    hide LE, FromLE, ReadString, EncodeString, TimeText;
    match a
    case Int64(i) => WordRead(U64(i), rest);
    case Uint64(u) => WordRead(u, rest);
    case Float64(bits) => WordRead(bits, rest);
    case Boolean(b) =>
    case Time(t) =>
      TimeTextFits(t);
      ShortStringRead(TimeText(t), rest);
    case Blob(v) => ShortStringRead(v.value, rest);
    case Json(v) => ShortStringRead(v.value, rest);
    case Str(s) => ShortStringRead(s, rest);
  }

  /** The type bytes and value bytes of every kind of argument: integers in two's complement,
      the unsigned ones flagged, floats by their bits, truth values as one byte, and everything
      else as a string. */
  lemma ArgumentForms(a: Arg, longDataSize: nat)
    requires GoodArg(a) && Encodable(a)
    ensures IsNull(a) ==> TypeOf(a) == (0x06, 0x00)
    ensures a.Int64? ==>
              && TypeOf(a) == (0x08, 0x00) && |ValueOf(a, longDataSize)| == 8
              && (FromLE(ValueOf(a, longDataSize)) - a.i) % 0x1_0000_0000_0000_0000 == 0
    ensures a.Uint64? ==>
              TypeOf(a) == (0x08, 0x80) && |ValueOf(a, longDataSize)| == 8 && FromLE(ValueOf(a, longDataSize)) == a.u
    ensures a.Float64? ==>
              TypeOf(a) == (0x05, 0x00) && |ValueOf(a, longDataSize)| == 8 && FromLE(ValueOf(a, longDataSize)) == a.bits
    ensures a.Boolean? ==> TypeOf(a) == (0x01, 0x00) && ValueOf(a, longDataSize) == [if a.b then 1 else 0]
    ensures a.Time? || (Content(a).Some? && !IsNull(a)) ==> TypeOf(a) == (0xfe, 0x00)
  {
    hide LE, FromLE, TimeText, EncodeString;
    Widths();
    match a
    case Int64(i) =>
      FromLEInvertsLE(U64(i), 8);
      assert (U64(i) - i) % 0x1_0000_0000_0000_0000 == 0;
    case Uint64(u) => FromLEInvertsLE(u, 8);
    case Float64(bits) => FromLEInvertsLE(bits, 8);
    case _ =>
  }

  /** The long arguments by number, as the server collects them. */
  ghost function LongMap(args: seq<Arg>, longDataSize: nat): (m: map<nat, seq<Byte>>)
    ensures forall i: nat :: i in m <==> i < |args| && IsLong(args[i], longDataSize)
    ensures forall i: nat :: i < |args| && IsLong(args[i], longDataSize) ==> m[i] == Content(args[i]).value
  {
    map i: nat | i < |args| && IsLong(args[i], longDataSize) :: Content(args[i]).value
  }

  ghost function ValuesFrom(args: seq<Arg>, i: nat, longDataSize: nat): seq<Byte>
    requires i <= |args| && GoodArgs(args) && AllEncodable(args)
    decreases |args| - i
  {
    if i == |args| then [] else ValueOf(args[i], longDataSize) + ValuesFrom(args, i + 1, longDataSize)
  }

  ghost function MeaningsFrom(args: seq<Arg>, i: nat): seq<Param>
    requires i <= |args| && AllEncodable(args)
    decreases |args| - i
  {
    if i == |args| then [] else [Meaning(args[i])] + MeaningsFrom(args, i + 1)
  }

  lemma {:induction false} ValuesSplit(args: seq<Arg>, i: nat, longDataSize: nat)
    requires i <= |args| && GoodArgs(args) && AllEncodable(args)
    ensures ValuesUpto(args, |args|, longDataSize)
         == ValuesUpto(args, i, longDataSize) + ValuesFrom(args, i, longDataSize)
    decreases |args| - i
  {
    hide ValueOf;
    if i < |args| {
      ValuesSplit(args, i + 1, longDataSize);
      Associate(ValuesUpto(args, i, longDataSize), ValueOf(args[i], longDataSize),
                ValuesFrom(args, i + 1, longDataSize));
    } else {
      assert ValuesUpto(args, i, longDataSize) + [] == ValuesUpto(args, i, longDataSize);
    }
  }

  /** One parameter whose value part is `v`. */
  lemma DecodeStep(mask: seq<Byte>, types: seq<Byte>, long: map<nat, seq<Byte>>, i: nat, n: nat, v: seq<Byte>,
      more: seq<Byte>, p: Param)
    requires i < n && |mask| == MaskLen(n) && |types| == 2 * n
    requires if Bit(mask[i / 8], i % 8) then v == [] && p == PNull
             else if i in long then v == [] && p == PString(long[i])
             else DecodeValue((types[2 * i], types[2 * i + 1]), v + more) == Some((p, |v|))
    ensures DecodeParams(mask, types, long, i, n, v + more)
         == Cons(p, DecodeParams(mask, types, long, i + 1, n, more))
  {
    hide DecodeValue, Bit;
    assert (v + more)[|v|..] == more;
    if v == [] { EmptyLeft(more); }
  }

  lemma {:induction false} ParamsRead(args: seq<Arg>, longDataSize: nat, i: nat)
    requires i <= |args| && GoodArgs(args) && AllEncodable(args)
    ensures DecodeParams(MaskUpto(args, |args|), TypesUpto(args, |args|), LongMap(args, longDataSize), i, |args|,
                         ValuesFrom(args, i, longDataSize))
         == Some(MeaningsFrom(args, i))
    decreases |args| - i
  {
    hide MaskUpto, TypesUpto, ValueOf, DecodeValue, Bit, Meaning, LongMap, GoodArg, Content, Encodable;
    if i < |args| {
      hide DecodeParams;
      ParamsRead(args, longDataSize, i + 1);
      MaskBitIffNull(args, i);
      TypesAt(args, |args|, i);
      var v, more := ValueOf(args[i], longDataSize), ValuesFrom(args, i + 1, longDataSize);
      if IsNull(args[i]) || IsLong(args[i], longDataSize) {
        NoValue(args[i], longDataSize);
      } else {
        ValueRead(args[i], longDataSize, more);
      }
      DecodeStep(MaskUpto(args, |args|), TypesUpto(args, |args|), LongMap(args, longDataSize), i, |args|, v, more,
                 Meaning(args[i]));
    }
  }

  lemma NoValue(a: Arg, longDataSize: nat)
    requires GoodArg(a) && Encodable(a) && (IsNull(a) || IsLong(a, longDataSize))
    ensures ValueOf(a, longDataSize) == []
    ensures if IsNull(a) then Meaning(a) == PNull else Meaning(a) == PString(Content(a).value)
  {
  }

  /** The packet together with the collected long data gives back every argument. */
  lemma ExecDecodes(id: nat, args: seq<Arg>, longDataSize: nat)
    requires GoodArgs(args) && AllEncodable(args)
    ensures DecodeExec(ExecBody(id, args, longDataSize), |args|, LongMap(args, longDataSize))
         == Some(MeaningsFrom(args, 0))
  {
    if args != [] {
      hide MaskUpto, TypesUpto, ValuesUpto, ValuesFrom, DecodeParams, DecodeExec, MeaningsFrom, Head, LongMap;
      ValuesSplit(args, 0, longDataSize);
      NoValuesYet(args, longDataSize);
      ParamsRead(args, longDataSize, 0);
      var m, t, v := MaskUpto(args, |args|), TypesUpto(args, |args|), ValuesFrom(args, 0, longDataSize);
      DecodeParts(Head(id), m, t, v, |args|, LongMap(args, longDataSize));
    }
  }

  lemma NoValuesYet(args: seq<Arg>, longDataSize: nat)
    requires GoodArgs(args) && AllEncodable(args)
    ensures ValuesUpto(args, 0, longDataSize) + ValuesFrom(args, 0, longDataSize) == ValuesFrom(args, 0, longDataSize)
  {
  }

  lemma DecodeParts(h: seq<Byte>, m: seq<Byte>, t: seq<Byte>, v: seq<Byte>, n: nat, long: map<nat, seq<Byte>>)
    requires |h| == 10 && n > 0 && |m| == MaskLen(n) && |t| == 2 * n
    ensures DecodeExec(h + m + [1] + t + v, n, long) == DecodeParams(m, t, long, 0, n, v)
  {
    hide DecodeParams;
    var b := h + m + [1] + t + v;
    var typesAt := 10 + |m| + 1;
    assert b[10..typesAt - 1] == m && b[typesAt - 1] == 1;
    assert b[typesAt..typesAt + |t|] == t && b[typesAt + |t|..] == v;
  }

  // ---- The whole command stream ----

  /** The ten bytes in front: the command, the statement's id, no cursor, one iteration. */
  lemma ExecHeadRead(id: nat, args: seq<Arg>, longDataSize: nat)
    requires id < 0x1_0000_0000 && GoodArgs(args) && AllEncodable(args)
    ensures var b := ExecBody(id, args, longDataSize);
            && |b| >= 10
            && b[0] == 0x17 && FromLE(b[1..5]) == id && b[5] == 0 && FromLE(b[6..10]) == 1
  {
    hide MaskUpto, TypesUpto, ValuesUpto, LE, FromLE;
    var b := ExecBody(id, args, longDataSize);
    assert b[1..5] == LE(id, 4);
    assert b[6..10] == LE(1, 4);
    FourBytes(id);
    FourBytes(1);
  }

  lemma FourBytes(n: nat)
    requires n < 0x1_0000_0000
    ensures FromLE(LE(n, 4)) == n
  {
    Widths();
    assert Pow256(4) == 256 * Pow256(3);
    FromLEInvertsLE(n, 4);
  }

  /** Long data by statement, then by parameter. */
  type Stored = map<nat, map<nat, seq<Byte>>>

  /** What an execute command finds: its statement, the long data kept for that statement, and
      the packet. */
  datatype Served = Served(id: nat, long: map<nat, seq<Byte>>, body: seq<Byte>, rest: seq<Byte>)

  function Collect(long: map<nat, seq<Byte>>, param: nat, chunk: seq<Byte>): map<nat, seq<Byte>> {
    long[param := (if param in long then long[param] else []) + chunk]
  }

  function LongOf(stored: Stored, id: nat): map<nat, seq<Byte>> {
    if id in stored then stored[id] else map[]
  }

  function Keep(stored: Stored, id: nat, long: map<nat, seq<Byte>>): Stored {
    if long == map[] then stored else stored[id := long]
  }

  /** The server appends long data to its statement's parameter until an execute command
      arrives, which takes what is kept for the statement it names. Every command starts a new
      packet sequence. */
  function Serve(q: seq<Byte>, stored: Stored): Option<Served>
    decreases |q|
  {
    match Framing.Parse(q, 0, None)
    case Bad(_) => None
    case Packet(p, rest, _) =>
      if p[0] == COM_STMT_SEND_LONG_DATA && |p| >= DATA_OFFSET then
        var id := FromLE(p[1..5]);
        Serve(rest, stored[id := Collect(LongOf(stored, id), FromLE(p[5..7]), p[7..])])
      else if p[0] == COM_STMT_EXECUTE && |p| >= 5 then
        var id := FromLE(p[1..5]);
        Some(Served(id, LongOf(stored, id), p, rest))
      else None
  }

  lemma LongBodyRead(id: nat, param: nat, chunk: seq<Byte>)
    requires id < 0x1_0000_0000 && param < 0x1_0000
    ensures var p := LongBody(id, param, chunk);
            p[0] == 0x18 && FromLE(p[1..5]) == id && FromLE(p[5..7]) == param && p[7..] == chunk
  {
    hide LE, FromLE;
    var p := LongBody(id, param, chunk);
    assert p[1..5] == LE(id, 4);
    assert p[5..7] == LE(param, 2);
    FourBytes(id);
    Widths();
    FromLEInvertsLE(param, 2);
  }

  lemma ServeOne(id: nat, param: nat, chunk: seq<Byte>, tail: seq<Byte>, stored: Stored)
    requires id < 0x1_0000_0000 && param < 0x1_0000
    ensures Serve(Framing.Frames(LongBody(id, param, chunk), 0) + tail, stored)
         == Serve(tail, stored[id := Collect(LongOf(stored, id), param, chunk)])
  {
    hide LongOf, Collect;
    var p := LongBody(id, param, chunk);
    LongBodyRead(id, param, chunk);
    Framing.ParseInvertsFrames(p, 0, None, tail);
    assert Framing.Joined(None, p) == p;
  }

  lemma {:induction false} ServeChunks(id: nat, param: nat, cs: seq<seq<Byte>>, tail: seq<Byte>, stored: Stored)
    requires id < 0x1_0000_0000 && param < 0x1_0000 && cs != []
    ensures Serve(LongFrames(id, param, cs) + tail, stored)
         == Serve(tail, stored[id := Collect(LongOf(stored, id), param, Concat(cs))])
    decreases |cs|
  {
    hide Serve, Framing.Frames, LongBody;
    var f, more := Framing.Frames(LongBody(id, param, cs[0]), 0), cs[1..];
    Associate(f, LongFrames(id, param, more), tail);
    ServeOne(id, param, cs[0], LongFrames(id, param, more) + tail, stored);
    if more == [] {
      EmptyLeft(tail);
      assert cs[0] + [] == cs[0];
    } else {
      var long := Collect(LongOf(stored, id), param, cs[0]);
      ServeChunks(id, param, more, tail, stored[id := long]);
      CollectTwice(LongOf(stored, id), param, cs[0], Concat(more));
      assert stored[id := long][id := Collect(long, param, Concat(more))]
          == stored[id := Collect(long, param, Concat(more))];
    }
  }

  lemma CollectTwice(long: map<nat, seq<Byte>>, param: nat, a: seq<Byte>, b: seq<Byte>)
    ensures Collect(Collect(long, param, a), param, b) == Collect(long, param, a + b)
  {
    Associate(if param in long then long[param] else [], a, b);
  }

  ghost function LongMapUpto(args: seq<Arg>, k: nat, longDataSize: nat): map<nat, seq<Byte>>
    requires k <= |args|
  {
    map i: nat | i < k && IsLong(args[i], longDataSize) :: Content(args[i]).value
  }

  lemma ServeArgument(max: int, id: nat, longDataSize: nat, args: seq<Arg>, k: nat, tail: seq<Byte>, stored: Stored)
    requires max > 8 && id < 0x1_0000_0000 && k < |args| <= 0xffff && longDataSize > 0 && id !in stored
    ensures Serve(LongPart(max, id, longDataSize, k, args[k]) + tail,
                  Keep(stored, id, LongMapUpto(args, k, longDataSize)))
         == Serve(tail, Keep(stored, id, LongMapUpto(args, k + 1, longDataSize)))
  {
    hide Serve, LongFrames, Chunks;
    var m := LongMapUpto(args, k, longDataSize);
    if IsLong(args[k], longDataSize) {
      var v := Content(args[k]).value;
      var cs := Chunks(v, ChunkSize(max));
      ChunksMakeArgument(v, max, id, k);
      NonemptyChunks(v, ChunkSize(max));
      ServeChunks(id, k, cs, tail, Keep(stored, id, m));
      EmptyLeft(v);
      assert Collect(m, k, v) == LongMapUpto(args, k + 1, longDataSize);
      KeepMore(stored, id, m, k, v);
    } else {
      EmptyLeft(tail);
      assert m == LongMapUpto(args, k + 1, longDataSize);
    }
  }

  lemma KeepMore(stored: Stored, id: nat, m: map<nat, seq<Byte>>, param: nat, v: seq<Byte>)
    requires id !in stored
    ensures LongOf(Keep(stored, id, m), id) == m
    ensures Keep(stored, id, m)[id := Collect(m, param, v)] == Keep(stored, id, Collect(m, param, v))
  {
    assert param in Collect(m, param, v);
    assert stored[id := m][id := Collect(m, param, v)] == stored[id := Collect(m, param, v)];
  }

  lemma NonemptyChunks(arg: seq<Byte>, size: nat)
    requires size > 0 && arg != []
    ensures Chunks(arg, size) != []
  {
  }

  lemma {:induction false} ServeLong(max: int, id: nat, longDataSize: nat, args: seq<Arg>, k: nat, tail: seq<Byte>,
      stored: Stored)
    requires max > 8 && id < 0x1_0000_0000 && k <= |args| <= 0xffff && longDataSize > 0 && id !in stored
    ensures Serve(LongUpto(max, id, longDataSize, args, k) + tail, stored)
         == Serve(tail, Keep(stored, id, LongMapUpto(args, k, longDataSize)))
    decreases k
  {
    hide Serve, LongPart;
    if k == 0 {
      EmptyLeft(tail);
      assert LongMapUpto(args, 0, longDataSize) == map[];
    } else {
      var part := LongPart(max, id, longDataSize, k - 1, args[k - 1]);
      Associate(LongUpto(max, id, longDataSize, args, k - 1), part, tail);
      ServeLong(max, id, longDataSize, args, k - 1, part + tail, stored);
      ServeArgument(max, id, longDataSize, args, k - 1, tail, stored);
    }
  }

  /** A server reading what writeExecutePacket sends executes that statement and obtains every
      argument: the long ones from the long-data stream, the others from the packet. What it
      keeps for other statements makes no difference. */
  lemma ServerRecoversArguments(max: int, id: nat, longDataSize: nat, args: seq<Arg>, tail: seq<Byte>, stored: Stored)
    requires max > 8 && id < 0x1_0000_0000 && |args| <= 0xffff && longDataSize > 0
    requires GoodArgs(args) && AllEncodable(args) && id !in stored
    ensures var sent := LongUpto(max, id, longDataSize, args, |args|)
                        + Framing.Frames(ExecBody(id, args, longDataSize), 0) + tail;
            var served := Serve(sent, stored);
            && served.Some? && served.value.id == id && served.value.rest == tail
            && DecodeExec(served.value.body, |args|, served.value.long) == Some(MeaningsFrom(args, 0))
  {
    hide ExecBody, Serve, Framing.Frames, DecodeExec;
    var body := ExecBody(id, args, longDataSize);
    var frames := Framing.Frames(body, 0);
    Associate(LongUpto(max, id, longDataSize, args, |args|), frames, tail);
    ServeLong(max, id, longDataSize, args, |args|, frames + tail, stored);
    assert LongMapUpto(args, |args|, longDataSize) == LongMap(args, longDataSize);
    ServeExec(id, args, longDataSize, tail, stored);
    ExecDecodes(id, args, longDataSize);
  }

  lemma ServeExec(id: nat, args: seq<Arg>, longDataSize: nat, tail: seq<Byte>, stored: Stored)
    requires id < 0x1_0000_0000 && GoodArgs(args) && AllEncodable(args) && id !in stored
    ensures var body := ExecBody(id, args, longDataSize);
            var m := LongMap(args, longDataSize);
            Serve(Framing.Frames(body, 0) + tail, Keep(stored, id, m)) == Some(Served(id, m, body, tail))
  {
    hide ExecBody, LongMap;
    var body := ExecBody(id, args, longDataSize);
    ExecHeadRead(id, args, longDataSize);
    Framing.ParseInvertsFrames(body, 0, None, tail);
    assert Framing.Joined(None, body) == body;
  }
}
