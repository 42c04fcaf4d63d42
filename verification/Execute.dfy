/** COM_STMT_EXECUTE: null mask, types and values written through three windows of one array,
    which is replaced when the values outgrow it. */
module Statements {
  import opened Bytes
  import opened Bitmaps
  import opened Buffers
  import opened Connections
  import opened LengthEncoding
  import opened LongData
  import DateTimes
  import Framing

  const COM_STMT_EXECUTE: Byte := 0x17
  const MIN_PKT_LEN: nat := 4 + 1 + 4 + 1 + 4

  const FIELD_TYPE_TINY: Byte := 0x01
  const FIELD_TYPE_DOUBLE: Byte := 0x05
  const FIELD_TYPE_NULL: Byte := 0x06
  const FIELD_TYPE_LONG_LONG: Byte := 0x08
  const FIELD_TYPE_STRING: Byte := 0xfe
  const UNSIGNED: Byte := 0x80

  const TWO_63: int := 0x8000_0000_0000_0000
  const TWO_64: int := 0x1_0000_0000_0000_0000

  /** The driver values; a nil slice is None, a float is its bit pattern. */
  datatype Arg =
    | Nil | Int64(i: int) | Uint64(u: nat) | Float64(bits: nat) | Boolean(b: bool)
    | Blob(blob: Option<seq<Byte>>) | Json(raw: Option<seq<Byte>>) | Str(s: seq<Byte>)
    | Time(t: DateTimes.Moment) | Other

  ghost predicate GoodArg(a: Arg) {
    match a
    case Int64(i) => -TWO_63 <= i < TWO_63
    case Uint64(u) => u < TWO_64
    case Float64(bits) => bits < TWO_64
    case Blob(v) => v.Some? ==> Fits(v.value)
    case Json(v) => v.Some? ==> Fits(v.value)
    case Str(s) => Fits(s)
    case Time(t) => t.ZeroTime? || DateTimes.InRange(t)
    case _ => true
  }

  predicate IsNull(a: Arg) {
    a.Nil? || (a.Blob? && a.blob.None?) || (a.Json? && a.raw.None?)
  }

  /** The bytes of a string-like argument. */
  function Content(a: Arg): Option<seq<Byte>> {
    match a
    case Blob(v) => v
    case Json(v) => v
    case Str(s) => Some(s)
    case _ => None
  }

  predicate IsLong(a: Arg, longDataSize: nat) {
    Content(a).Some? && |Content(a).value| >= longDataSize
  }

  function TimeText(t: DateTimes.Moment): seq<Byte>
    requires t.Date? ==> t.year >= 0
  {
    if t.ZeroTime? then DateTimes.DateText(0, 0, 0) else DateTimes.Text(t)
  }

  predicate Encodable(a: Arg) {
    !a.Other? && (a.Time? && a.t.Date? ==> 1 <= a.t.year <= 9999)
  }

  function TypeOf(a: Arg): (Byte, Byte) {
    if IsNull(a) then (FIELD_TYPE_NULL, 0)
    else match a
      case Int64(_) => (FIELD_TYPE_LONG_LONG, 0)
      case Uint64(_) => (FIELD_TYPE_LONG_LONG, UNSIGNED)
      case Float64(_) => (FIELD_TYPE_DOUBLE, 0)
      case Boolean(_) => (FIELD_TYPE_TINY, 0)
      case _ => (FIELD_TYPE_STRING, 0)
  }

  function U64(i: int): int {
    if i < 0 then i + TWO_64 else i
  }

  /** The value part of an argument; a NULL has none and a long one travels separately. */
  ghost function ValueOf(a: Arg, longDataSize: nat): seq<Byte>
    requires GoodArg(a) && Encodable(a)
  {
    if IsLong(a, longDataSize) then []
    else match a
      case Int64(i) => LE(U64(i), 8)
      case Uint64(u) => LE(u, 8)
      case Float64(bits) => LE(bits, 8)
      case Boolean(b) => [if b then 1 else 0]
      case Time(t) => ShortString(TimeText(t))
      case Blob(v) => if v.None? then [] else ShortString(v.value)
      case Json(v) => if v.None? then [] else ShortString(v.value)
      case Str(s) => ShortString(s)
      case _ => []
  }

  function ShortString(s: seq<Byte>): seq<Byte> {
    if |s| < Pow256(8) then EncodeString(s) else []
  }

  // ---- One argument, in place ----

  /** What one argument does to the fixed part data[..pos]. */
  function FixedAfter(p: seq<Byte>, typesAt: nat, i: nat, a: Arg): (r: seq<Byte>)
    requires MIN_PKT_LEN + i / 8 < typesAt && typesAt + 2 * i + 2 <= |p|
    ensures |r| == |p|
  {
    var at := MIN_PKT_LEN + i / 8;
    SetBitByte(p[at], i % 8);
    var masked := if IsNull(a) then p[at := SetBit(p[at], i % 8)] else p;
    masked[typesAt + 2 * i := TypeOf(a).0][typesAt + 2 * i + 1 := TypeOf(a).1]
  }

  /** The values window: behind the fixed part of `data`, or in an array of its own that is
      larger than the room there was. */
  ghost predicate ValuesWindow(vals: Slice, data: array<Byte>, pos: nat)
  {
    && vals.Valid() && pos <= data.Length
    && (vals.arr == data ==> vals.off == pos)
    && (vals.arr != data ==> vals.Cap() > data.Length - pos)
  }

  method SetNullBit(data: array<Byte>, pos: nat, i: nat, vals: Slice)
    requires MIN_PKT_LEN + i / 8 < pos && ValuesWindow(vals, data, pos)
    modifies data
    ensures var p := old(data[..pos]);
            SetBit(p[MIN_PKT_LEN + i / 8], i % 8) < 256
            && data[..pos] == p[MIN_PKT_LEN + i / 8 := SetBit(p[MIN_PKT_LEN + i / 8], i % 8)]
    ensures vals.Bytes() == old(vals.Bytes())
  {
    SetBitByte(data[MIN_PKT_LEN + i / 8], i % 8);
    data[MIN_PKT_LEN + i / 8] := SetBit(data[MIN_PKT_LEN + i / 8], i % 8);
  }

  method SetType(data: array<Byte>, pos: nat, at: nat, t: Byte, flag: Byte, vals: Slice)
    requires at + 2 <= pos && ValuesWindow(vals, data, pos)
    modifies data
    ensures data[..pos] == old(data[..pos])[at := t][at + 1 := flag]
    ensures vals.Bytes() == old(vals.Bytes())
  {
    data[at] := t;
    data[at + 1] := flag;
  }

  /** append on the values window leaves the fixed part alone. */
  method AppendValues(vals: Slice, more: seq<Byte>, data: array<Byte>, pos: nat) returns (r: Slice)
    requires ValuesWindow(vals, data, pos)
    modifies vals.arr
    ensures ValuesWindow(r, data, pos) && (r.arr == vals.arr || fresh(r.arr))
    ensures r.Bytes() == old(vals.Bytes()) + more
    ensures data[..pos] == old(data[..pos])
  {
    r := Append(vals, more);
    assert forall k | 0 <= k < pos :: data[k] == old(data[k]);
  }

  /** The fast path writes eight bytes within the capacity, the other appends them. */
  method AppendUint64(vals: Slice, v: nat, data: array<Byte>, pos: nat) returns (r: Slice)
    requires ValuesWindow(vals, data, pos) && v < TWO_64
    modifies vals.arr
    ensures ValuesWindow(r, data, pos) && (r.arr == vals.arr || fresh(r.arr))
    ensures r.Bytes() == old(vals.Bytes()) + LE(v, 8)
    ensures data[..pos] == old(data[..pos])
  {
    if vals.Cap() - vals.len - 8 >= 0 {
      r := Slice(vals.arr, vals.off, vals.len + 8);
      Put(r.arr, r.off + r.len - 8, LE(v, 8));
      assert r.arr[r.off..r.off + vals.len] == r.arr[..r.off + vals.len][r.off..];
      assert r.Bytes() == r.arr[r.off..r.off + vals.len] + r.arr[r.off + vals.len..r.off + r.len];
      assert forall k | 0 <= k < pos :: data[k] == old(data[k]);
    } else {
      r := AppendValues(vals, LE(v, 8), data, pos);
    }
  }

  /** A string argument: in the packet when it is short, else ahead of it as long data. */
  method EncodeText(mc: MysqlConn, id: nat, longDataSize: nat, i: nat, v: seq<Byte>,
                       vals: Slice, data: array<Byte>, pos: nat) returns (r: Slice, err: Option<Error>)
    requires mc.Valid() && ValuesWindow(vals, data, pos) && Fits(v)
    requires mc.maxAllowedPacket > 8 || |v| < longDataSize
    modifies mc, mc.wire`sent, vals.arr
    ensures mc.Valid() && mc.maxAllowedPacket == old(mc.maxAllowedPacket)
    ensures ValuesWindow(r, data, pos) && (r.arr == vals.arr || fresh(r.arr))
    ensures data[..pos] == old(data[..pos])
    ensures err.None? && |v| < longDataSize ==>
              r.Bytes() == old(vals.Bytes()) + ShortString(v)
              && mc.wire.sent == old(mc.wire.sent) && mc.sequence == old(mc.sequence)
    ensures err.None? && |v| >= longDataSize ==>
              r.Bytes() == old(vals.Bytes())
              && mc.wire.sent == old(mc.wire.sent) + LongFrames(id, i, Chunks(v, ChunkSize(mc.maxAllowedPacket)))
              && mc.sequence == 0
    ensures |v| < longDataSize || mc.wire.reliable ==> err.None?
  {
    hide LongFrames, Chunks;
    if |v| < longDataSize {
      r := AppendValues(vals, EncodeInt(|v|), data, pos);
      r := AppendValues(r, v, data, pos);
      Associate(old(vals.Bytes()), EncodeInt(|v|), v);
      err := None;
    } else {
      r := vals;
      err := WriteCommandLongData(mc, id, i, v);
    }
  }

  /** Fixed-width values. */
  method EncodeNumber(arg: Arg, at: nat, vals: Slice, data: array<Byte>, pos: nat) returns (r: Slice)
    requires arg.Int64? || arg.Uint64? || arg.Float64? || arg.Boolean?
    requires ValuesWindow(vals, data, pos) && GoodArg(arg) && at + 2 <= pos
    modifies vals.arr, data
    ensures ValuesWindow(r, data, pos) && (r.arr == vals.arr || fresh(r.arr))
    ensures data[..pos] == old(data[..pos])[at := TypeOf(arg).0][at + 1 := TypeOf(arg).1]
    ensures r.Bytes() == old(vals.Bytes()) + ValueOf(arg, 0)
  {
    hide LE;
    match arg {
      case Int64(v) =>
        SetType(data, pos, at, FIELD_TYPE_LONG_LONG, 0, vals);
        r := AppendUint64(vals, U64(v), data, pos);
      case Uint64(v) =>
        SetType(data, pos, at, FIELD_TYPE_LONG_LONG, UNSIGNED, vals);
        r := AppendUint64(vals, v, data, pos);
      case Float64(bits) =>
        SetType(data, pos, at, FIELD_TYPE_DOUBLE, 0, vals);
        r := AppendUint64(vals, bits, data, pos);
      case Boolean(b) =>
        SetType(data, pos, at, FIELD_TYPE_TINY, 0, vals);
        r := AppendValues(vals, [if b then 1 else 0], data, pos);
    }
  }

  method EncodeTime(t: DateTimes.Moment, at: nat, vals: Slice, data: array<Byte>, pos: nat)
      returns (r: Slice, err: Option<Error>)
    requires ValuesWindow(vals, data, pos) && GoodArg(Time(t)) && at + 2 <= pos
    modifies vals.arr, data
    ensures ValuesWindow(r, data, pos) && (r.arr == vals.arr || fresh(r.arr))
    ensures err.None? ==> Encodable(Time(t))
                          && data[..pos] == old(data[..pos])[at := FIELD_TYPE_STRING][at + 1 := 0]
                          && r.Bytes() == old(vals.Bytes()) + ShortString(TimeText(t))
    ensures err.Some? <==> !Encodable(Time(t))
  {
    hide TimeText, EncodeInt;
    SetType(data, pos, at, FIELD_TYPE_STRING, 0, vals);
    var b := FormatTime(t);
    if b.Err? { return vals, Some(YearRange); }
    r := AppendValues(vals, EncodeInt(|b.value|), data, pos);
    r := AppendValues(r, b.value, data, pos);
    Associate(old(vals.Bytes()), EncodeInt(|b.value|), b.value);
    err := None;
  }

  /** Long data make progress (the limit matters only where there are any). */
  predicate RoomForLongData(maxAllowedPacket: int, longDataSize: nat, args: seq<Arg>) {
    maxAllowedPacket > 8 || forall i | 0 <= i < |args| :: !IsLong(args[i], longDataSize)
  }

  ghost function LongPart(maxAllowedPacket: int, id: nat, longDataSize: nat, i: nat, arg: Arg): seq<Byte>
  {
    if IsLong(arg, longDataSize) && maxAllowedPacket > 8 then
      LongFrames(id, i, Chunks(Content(arg).value, ChunkSize(maxAllowedPacket)))
    else []
  }

  /** One turn of the loop over the arguments. */
  method EncodeArg(mc: MysqlConn, id: nat, longDataSize: nat, i: nat, arg: Arg,
                   vals: Slice, data: array<Byte>, pos: nat, typesAt: nat) returns (r: Slice, err: Option<Error>)
    requires mc.Valid() && ValuesWindow(vals, data, pos) && GoodArg(arg)
    requires mc.maxAllowedPacket > 8 || !IsLong(arg, longDataSize)
    requires MIN_PKT_LEN + i / 8 < typesAt && typesAt + 2 * i + 2 <= pos
    modifies mc, mc.wire`sent, vals.arr, data
    ensures mc.Valid() && mc.maxAllowedPacket == old(mc.maxAllowedPacket)
    ensures ValuesWindow(r, data, pos) && (r.arr == vals.arr || fresh(r.arr))
    ensures err.None? ==>
              && Encodable(arg)
              && data[..pos] == FixedAfter(old(data[..pos]), typesAt, i, arg)
              && r.Bytes() == old(vals.Bytes()) + ValueOf(arg, longDataSize)
              && mc.wire.sent == old(mc.wire.sent) + LongPart(mc.maxAllowedPacket, id, longDataSize, i, arg)
              && (mc.sequence == old(mc.sequence) || mc.sequence == 0)
    ensures mc.wire.reliable && Encodable(arg) ==> err.None?
  {
    hide LongFrames, Chunks, SetBit, TimeText, EncodeInt, LE, ShortString, MysqlConn.Valid, DateTimes.InRange, Fits;
    r, err := vals, None;
    var at := typesAt + 2 * i;
    if IsNull(arg) {
      SetNullBit(data, pos, i, vals);
      SetType(data, pos, at, FIELD_TYPE_NULL, 0, vals);
      assert vals.Bytes() + [] == vals.Bytes() && mc.wire.sent + [] == mc.wire.sent;
    } else if arg.Time? {
      r, err := EncodeTime(arg.t, at, vals, data, pos);
      assert mc.wire.sent + [] == mc.wire.sent;
    } else if Content(arg).Some? {
      SetType(data, pos, at, FIELD_TYPE_STRING, 0, vals);
      assert vals.Bytes() + [] == vals.Bytes() && mc.wire.sent + [] == mc.wire.sent;
      r, err := EncodeText(mc, id, longDataSize, i, Content(arg).value, vals, data, pos);
    } else if arg.Other? {
      err := Some(Unsupported);
    } else {
      r := EncodeNumber(arg, at, vals, data, pos);
      assert mc.wire.sent + [] == mc.wire.sent;
    }
  }

  method FormatTime(t: DateTimes.Moment) returns (b: Result<seq<Byte>, Error>)
    requires t.ZeroTime? || DateTimes.InRange(t)
    ensures b.Ok? <==> Encodable(Time(t))
    ensures b.Ok? ==> b.value == TimeText(t) && |b.value| < Pow256(8)
  {
    if t.ZeroTime? {
      b := Ok(DateTimes.DateText(0, 0, 0));
    } else {
      var r := DateTimes.AppendDateTime([], t);
      if r.Err? { return Err(YearRange); }
      EmptyLeft(DateTimes.Text(t));
      b := Ok(r.value);
    }
    Widths();
  }

  // ---- The whole packet ----

  ghost predicate GoodArgs(args: seq<Arg>) {
    forall i | 0 <= i < |args| :: GoodArg(args[i])
  }

  ghost predicate AllEncodable(args: seq<Arg>) {
    forall i | 0 <= i < |args| :: Encodable(args[i])
  }

  function MaskLen(n: nat): nat {
    BitmapLen(n, 0)
  }

  function Nulls(args: seq<Arg>): (ns: seq<bool>)
    ensures |ns| == |args| && forall i | 0 <= i < |ns| :: ns[i] == IsNull(args[i])
  {
    seq(|args|, i requires 0 <= i < |args| => IsNull(args[i]))
  }

  /** The null mask once the first `k` arguments are in. */
  function MaskUpto(args: seq<Arg>, k: nat): (m: seq<Byte>)
    requires k <= |args|
    ensures |m| == MaskLen(|args|)
  {
    Bitmap(Nulls(args), 0, k)
  }

  function TypesUpto(args: seq<Arg>, k: nat): (t: seq<Byte>)
    requires k <= |args|
    ensures |t| == 2 * k
  {
    if k == 0 then [] else TypesUpto(args, k - 1) + [TypeOf(args[k - 1]).0, TypeOf(args[k - 1]).1]
  }

  ghost function ValuesUpto(args: seq<Arg>, k: nat, longDataSize: nat): seq<Byte>
    requires k <= |args| && GoodArgs(args) && forall i | 0 <= i < k :: Encodable(args[i])
  {
    if k == 0 then [] else ValuesUpto(args, k - 1, longDataSize) + ValueOf(args[k - 1], longDataSize)
  }

  function Head(id: nat): (h: seq<Byte>)
    ensures |h| == 10
  {
    [COM_STMT_EXECUTE] + LE(id, 4) + [0] + LE(1, 4)
  }

  /** The body of the packet, whatever buffer it is built in. */
  ghost function ExecBody(id: nat, args: seq<Arg>, longDataSize: nat): seq<Byte>
    requires GoodArgs(args) && AllEncodable(args)
  {
    if args == [] then Head(id)
    else Head(id) + MaskUpto(args, |args|) + [1] + TypesUpto(args, |args|) + ValuesUpto(args, |args|, longDataSize)
  }

  /** The long-data commands sent ahead of the packet. */
  ghost function LongUpto(max: int, id: nat, longDataSize: nat, args: seq<Arg>, k: nat): seq<Byte>
    requires k <= |args|
  {
    if k == 0 then []
    else LongUpto(max, id, longDataSize, args, k - 1) + LongPart(max, id, longDataSize, k - 1, args[k - 1])
  }

  /** The fixed part data[..pos] after `k` arguments, up to the types not yet written. */
  ghost predicate FixedIs(p: seq<Byte>, lead: seq<Byte>, args: seq<Arg>, k: nat)
    requires k <= |args|
  {
    && |p| == |lead| + MaskLen(|args|) + 1 + 2 * |args|
    && |lead| == MIN_PKT_LEN
    && lead + MaskUpto(args, k) + [1] + TypesUpto(args, k) <= p
  }

  lemma UpdateMiddle(a: seq<Byte>, b: seq<Byte>, c: seq<Byte>, j: nat, x: Byte)
    requires j < |b|
    ensures (a + b + c)[|a| + j := x] == a + b[j := x] + c
  {
  }

  lemma PutTwo(front: seq<Byte>, tail: seq<Byte>, x: Byte, y: Byte)
    requires |tail| >= 2
    ensures (front + tail)[|front| := x][|front| + 1 := y] == front + [x, y] + tail[2..]
  {
  }

  /** The types written so far end where the rest of the fixed part starts. */
  lemma FixedSplits(p: seq<Byte>, lead: seq<Byte>, m: seq<Byte>, t: seq<Byte>)
    requires lead + m + [1] + t <= p
    ensures p == lead + m + ([1] + t + p[|lead| + |m| + 1 + |t|..])
    ensures forall m': seq<Byte>, tail: seq<Byte> :: lead + m' + ([1] + t + tail) == (lead + m' + [1] + t) + tail
  {
  }

  lemma UptoStep(args: seq<Arg>, k: nat)
    requires k < |args|
    ensures var m := MaskUpto(args, k);
            && k / 8 < |m|
            && SetBit(m[k / 8], k % 8) < 256
            && MaskUpto(args, k + 1) == m[k / 8 := if IsNull(args[k]) then SetBit(m[k / 8], k % 8) else m[k / 8]]
    ensures TypesUpto(args, k + 1) == TypesUpto(args, k) + [TypeOf(args[k]).0, TypeOf(args[k]).1]
  {
    hide SetBit;
    SetBitByte(MaskUpto(args, k)[k / 8], k % 8);
  }

  lemma FixedStep(p: seq<Byte>, lead: seq<Byte>, args: seq<Arg>, k: nat)
    requires k < |args| && FixedIs(p, lead, args, k)
    ensures var typesAt := MIN_PKT_LEN + MaskLen(|args|) + 1;
            MIN_PKT_LEN + k / 8 < typesAt && typesAt + 2 * k + 2 <= |p|
            && FixedIs(FixedAfter(p, typesAt, k, args[k]), lead, args, k + 1)
  {
    hide SetBit, MaskUpto, TypesUpto, TypeOf;
    var m, t := MaskUpto(args, k), TypesUpto(args, k);
    FixedSplits(p, lead, m, t);
    var tail := p[|lead| + |m| + 1 + |t|..];
    SetBitByte(m[k / 8], k % 8);
    var bit := if IsNull(args[k]) then SetBit(m[k / 8], k % 8) else m[k / 8];
    UpdateMiddle(lead, m, [1] + t + tail, k / 8, bit);
    assert p[MIN_PKT_LEN + k / 8] == m[k / 8];
    var m' := m[k / 8 := bit];
    UptoStep(args, k);
    PutTwo(lead + m' + [1] + t, tail, TypeOf(args[k]).0, TypeOf(args[k]).1);
    Associate(lead + m' + [1], t, [TypeOf(args[k]).0, TypeOf(args[k]).1]);
  }

  method PutHead(data: array<Byte>, id: nat)
    requires data.Length >= MIN_PKT_LEN
    modifies data
    ensures data[4..MIN_PKT_LEN] == Head(id)
  {
    LE4(id);
    LE4(1);
    data[4] := COM_STMT_EXECUTE;
    data[5], data[6] := id % 256, id / 0x100 % 256;
    data[7], data[8] := id / 0x1_0000 % 256, id / 0x100_0000 % 256;
    data[9] := 0x00;
    data[10], data[11], data[12], data[13] := 0x01, 0x00, 0x00, 0x00;
  }

  /** Makes room for mask and types: in place when they fit with room to spare, else in an
      array that holds just them, so that every value has to be appended elsewhere. */
  method Layout(taken: array<Byte>, args: seq<Arg>) returns (data: array<Byte>, ghost lead: seq<Byte>)
    requires taken.Length >= MIN_PKT_LEN && args != []
    modifies taken
    ensures data == taken || fresh(data)
    ensures var pos := MIN_PKT_LEN + MaskLen(|args|) + 1 + 2 * |args|;
            pos <= data.Length && FixedIs(data[..pos], lead, args, 0)
    ensures lead == old(taken[..MIN_PKT_LEN])
  {
    var maskLen, typesLen := MaskLen(|args|), 1 + 2 * |args|;
    lead := taken[..MIN_PKT_LEN];
    if MIN_PKT_LEN + maskLen + typesLen >= taken.Length {
      data := new Byte[MIN_PKT_LEN + maskLen + typesLen](_ => 0);
      Put(data, 0, taken[..MIN_PKT_LEN]);
      assert data[..MIN_PKT_LEN] == lead;
    } else {
      data := taken;
      forall k | MIN_PKT_LEN <= k < MIN_PKT_LEN + maskLen { data[k] := 0; }
    }
    data[MIN_PKT_LEN + maskLen] := 0x01;
    assert data[MIN_PKT_LEN..MIN_PKT_LEN + maskLen] == Zeros(maskLen);
    var pos := MIN_PKT_LEN + maskLen + typesLen;
    assert data[..pos][..MIN_PKT_LEN + maskLen + 1] == lead + Zeros(maskLen) + [1] + [];
  }

  method EncodeArgs(mc: MysqlConn, id: nat, longDataSize: nat, args: seq<Arg>, data: array<Byte>, ghost lead: seq<Byte>)
      returns (vals: Slice, err: Option<Error>)
    requires mc.Valid() && GoodArgs(args) && RoomForLongData(mc.maxAllowedPacket, longDataSize, args)
    requires var pos := MIN_PKT_LEN + MaskLen(|args|) + 1 + 2 * |args|;
             pos <= data.Length && FixedIs(data[..pos], lead, args, 0)
    modifies mc, mc.wire`sent, data
    ensures mc.Valid() && mc.maxAllowedPacket == old(mc.maxAllowedPacket)
    ensures var pos := MIN_PKT_LEN + MaskLen(|args|) + 1 + 2 * |args|;
            ValuesWindow(vals, data, pos)
            && (err.None? ==> && AllEncodable(args) && FixedIs(data[..pos], lead, args, |args|)
                              && vals.Bytes() == ValuesUpto(args, |args|, longDataSize)
                              && mc.wire.sent == old(mc.wire.sent)
                                                 + LongUpto(mc.maxAllowedPacket, id, longDataSize, args, |args|)
                              && (mc.sequence == old(mc.sequence) || mc.sequence == 0))
    ensures mc.wire.reliable && AllEncodable(args) ==> err.None?
  {
    hide FixedAfter, ValueOf, LongPart, FixedIs, MysqlConn.Repr, Encodable, GoodArg, MysqlConn.Valid, MaskLen;
    var typesAt := MIN_PKT_LEN + MaskLen(|args|) + 1;
    var pos := typesAt + 2 * |args|;
    vals := Slice(data, pos, 0);
    assert mc.wire.sent + [] == mc.wire.sent;
    var i := 0;
    while i < |args|
      invariant i <= |args| && mc.Valid() && mc.maxAllowedPacket == old(mc.maxAllowedPacket)
      invariant ValuesWindow(vals, data, pos) && (vals.arr == data || fresh(vals.arr))
      invariant forall k | 0 <= k < i :: Encodable(args[k])
      invariant FixedIs(data[..pos], lead, args, i)
      invariant vals.Bytes() == ValuesUpto(args, i, longDataSize)
      invariant mc.wire.sent == old(mc.wire.sent) + LongUpto(mc.maxAllowedPacket, id, longDataSize, args, i)
      invariant mc.sequence == old(mc.sequence) || mc.sequence == 0
    {
      FixedStep(data[..pos], lead, args, i);
      vals, err := EncodeArg(mc, id, longDataSize, i, args[i], vals, data, pos, typesAt);
      if err.Some? { return; }
      Associate(old(mc.wire.sent), LongUpto(mc.maxAllowedPacket, id, longDataSize, args, i),
                LongPart(mc.maxAllowedPacket, id, longDataSize, i, args[i]));
      i := i + 1;
    }
    err := None;
  }

  /** Puts fixed part and values together: they lie side by side already unless the values had
      to move, which shows in their capacity. */
  method Splice(mc: MysqlConn, data: array<Byte>, pos: nat, vals: Slice) returns (r: Slice, err: Option<Error>)
    requires mc.Valid() && mc.buf.length == 0 && ValuesWindow(vals, data, pos)
    modifies data, mc.buf`buf
    ensures mc.Valid() && mc.buf.length == 0 && err.None?
    ensures r.Valid() && r.Bytes() == old(data[..pos] + vals.Bytes())
    ensures r.arr == data || fresh(r.arr)
    ensures mc.buf.buf == old(mc.buf.buf) || mc.buf.buf == r.arr
  {
    var valuesCap := data.Length - pos;
    err := None;
    if valuesCap != vals.Cap() {
      assert Slice(data, 0, pos).Bytes() == data[..pos];
      r := Append(Slice(data, 0, pos), vals.Bytes());
      var stored := mc.buf.Store(r.arr);
      if !stored { return r, Some(BadConnNoWrite); }
    } else {
      r := Slice(data, 0, pos + vals.len);
      assert data[..pos + vals.len] == data[..pos] + data[pos..pos + vals.len];
    }
  }

  function LongDataSize(maxAllowedPacket: int, paramCount: nat): (n: nat)
    ensures n >= 64
  {
    if maxAllowedPacket / (paramCount + 1) < 64 then 64 else maxAllowedPacket / (paramCount + 1)
  }

  /** The threshold is the largest number of bytes of which every parameter, and the rest of the
      packet, can have one such share within the limit; but never less than 64. */
  lemma ThresholdShares(maxAllowedPacket: int, paramCount: nat)
    ensures var n := LongDataSize(maxAllowedPacket, paramCount);
            && (n > 64 ==> n * (paramCount + 1) <= maxAllowedPacket)
            && maxAllowedPacket < (n + 1) * (paramCount + 1)
  {
    var p := paramCount + 1;
    var q, r := maxAllowedPacket / p, maxAllowedPacket % p;
    assert maxAllowedPacket == q * p + r && 0 <= r < p;
    if q < 64 { Grows(q + 1, 65, p); }
  }

  lemma Grows(a: int, b: int, p: nat)
    requires a <= b
    ensures a * p <= b * p
  {
    assert b * p == a * p + (b - a) * p;
  }

  /** The packet is the same whatever array it was built in. */
  method WriteExecutePacket(mc: MysqlConn, id: nat, paramCount: nat, args: seq<Arg>) returns (err: Option<Error>)
    requires mc.Valid() && GoodArgs(args)
    requires RoomForLongData(mc.maxAllowedPacket, LongDataSize(mc.maxAllowedPacket, paramCount), args)
    modifies mc, mc.wire`sent, mc.buf`buf, mc.buf.buf
    ensures mc.Valid()
    ensures |args| != paramCount ==> err == Some(ArgumentCount) && mc.wire.sent == old(mc.wire.sent)
    ensures old(mc.buf.length) > 0 ==> err.Some? && mc.wire.sent == old(mc.wire.sent)
    ensures err.None? ==>
              var lds := LongDataSize(old(mc.maxAllowedPacket), paramCount);
              && AllEncodable(args)
              && mc.wire.sent == old(mc.wire.sent)
                                 + LongUpto(old(mc.maxAllowedPacket), id, lds, args, |args|)
                                 + Framing.Frames(ExecBody(id, args, lds), 0)
    ensures (mc.wire.reliable && old(mc.buf.length) == 0 && |args| == paramCount && AllEncodable(args)
             && |ExecBody(id, args, LongDataSize(old(mc.maxAllowedPacket), paramCount))| <= old(mc.maxAllowedPacket))
            ==> err.None?
  {
    hide Framing.Frames, Framing.After, LongUpto, ValuesUpto;
    if |args| != paramCount { return Some(ArgumentCount); }
    var longDataSize := LongDataSize(mc.maxAllowedPacket, paramCount);
    mc.sequence := 0;
    if |args| == 0 {
      var taken := mc.buf.TakeBuffer(MIN_PKT_LEN);
      if taken.None? { return Some(BadConnNoWrite); }
      PutHead(taken.value.arr, id);
      assert taken.value.Bytes()[4..] == Head(id);
      NoLongData(mc, id, longDataSize, args);
      err := mc.WritePacket(taken.value);
      return;
    }
    var taken := mc.buf.TakeCompleteBuffer();
    if taken.None? { return Some(BadConnNoWrite); }
    PutHead(taken.value.arr, id);
    err := WriteArguments(mc, id, longDataSize, args, taken.value.arr);
  }

  lemma NoLongData(mc: MysqlConn, id: nat, longDataSize: nat, args: seq<Arg>)
    requires args == []
    ensures mc.wire.sent + LongUpto(mc.maxAllowedPacket, id, longDataSize, args, |args|) == mc.wire.sent
  {
  }

  method WriteArguments(mc: MysqlConn, id: nat, longDataSize: nat, args: seq<Arg>, taken: array<Byte>)
      returns (err: Option<Error>)
    requires mc.Valid() && GoodArgs(args) && args != []
    requires RoomForLongData(mc.maxAllowedPacket, longDataSize, args)
    requires mc.buf.length == 0 && mc.sequence == 0
    requires taken.Length >= MIN_PKT_LEN && taken[4..MIN_PKT_LEN] == Head(id)
    modifies mc, mc.wire`sent, mc.buf`buf, taken
    ensures mc.Valid()
    ensures err.None? ==>
              && AllEncodable(args)
              && mc.wire.sent == old(mc.wire.sent)
                                 + LongUpto(old(mc.maxAllowedPacket), id, longDataSize, args, |args|)
                                 + Framing.Frames(ExecBody(id, args, longDataSize), 0)
    ensures (mc.wire.reliable && AllEncodable(args)
             && |ExecBody(id, args, longDataSize)| <= old(mc.maxAllowedPacket)) ==> err.None?
  {
    hide Framing.Frames, Framing.After, LongUpto, ValuesUpto, Head, MaskUpto, TypesUpto, ExecBody;
    var data, lead := Layout(taken, args);
    var vals: Slice;
    vals, err := EncodeArgs(mc, id, longDataSize, args, data, lead);
    if err.Some? { return; }
    var pos := MIN_PKT_LEN + MaskLen(|args|) + 1 + 2 * |args|;
    BodyIs(data[..pos], lead, args, id, longDataSize);
    var packet: Slice;
    packet, err := Splice(mc, data, pos, vals);
    if err.Some? { return; }
    err := mc.WritePacket(packet);
  }

  lemma BodyIs(p: seq<Byte>, lead: seq<Byte>, args: seq<Arg>, id: nat, longDataSize: nat)
    requires GoodArgs(args) && AllEncodable(args) && args != []
    requires FixedIs(p, lead, args, |args|) && lead[4..] == Head(id)
    ensures (p + ValuesUpto(args, |args|, longDataSize))[4..] == ExecBody(id, args, longDataSize)
  {
    hide MaskUpto, TypesUpto, ValuesUpto, Head;
    var m, t := MaskUpto(args, |args|), TypesUpto(args, |args|);
    assert p == lead + m + [1] + t;
    BehindHeader(lead, m, t, ValuesUpto(args, |args|, longDataSize));
  }

  lemma BehindHeader(lead: seq<Byte>, m: seq<Byte>, t: seq<Byte>, v: seq<Byte>)
    requires |lead| >= 4
    ensures (lead + m + [1] + t + v)[4..] == lead[4..] + m + [1] + t + v
  {
  }
}
