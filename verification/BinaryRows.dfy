/** Rows of the binary protocol: a null bitmap whose first two bits are unused, then one value
    per column that is not NULL. */
module BinaryRows {
  import opened Bitmaps
  import opened Bytes
  import opened Decimals
  import opened LengthEncoding
  import DateTimes
  import T = Temporals

  const TINY: Byte := 0x01
  const SHORT: Byte := 0x02
  const LONG: Byte := 0x03
  const FLOAT: Byte := 0x04
  const DOUBLE: Byte := 0x05
  const NULL: Byte := 0x06
  const TIMESTAMP: Byte := 0x07
  const LONG_LONG: Byte := 0x08
  const INT24: Byte := 0x09
  const DATE: Byte := 0x0a
  const TIME: Byte := 0x0b
  const DATE_TIME: Byte := 0x0c
  const YEAR: Byte := 0x0d
  const NEW_DATE: Byte := 0x0e
  const UNSIGNED_BIT: nat := 5   // flagUnsigned == 1 << 5
  const MAX_INT64: int := 0x7fff_ffff_ffff_ffff

  /** The properties of a column that the reader consults. */
  datatype Col = Col(fieldType: Byte, flags: nat, decimals: Byte)

  datatype Cell = CNull | CInt(i: int) | CText(s: seq<Byte>) | CFloat32(bits: nat) | CFloat64(bits: nat)
                | CMoment(t: DateTimes.Moment)

  datatype RowError = OutOfBounds | ShortString | IllegalDecimals | BadTime(e: DateTimes.TimeError) | UnknownType

  predicate IsUnsigned(c: Col) {
    Bit(c.flags, UNSIGNED_BIT)
  }

  /** The byte width of an integer column. */
  function IntWidth(fieldType: Byte): (w: nat)
    ensures w <= 8
  {
    if fieldType == TINY then 1
    else if fieldType == SHORT || fieldType == YEAR then 2
    else if fieldType == INT24 || fieldType == LONG then 4
    else if fieldType == LONG_LONG then 8
    else 0
  }

  predicate IsText(fieldType: Byte) {
    fieldType == 0x00 || fieldType == 0x0f || fieldType == 0x10 || fieldType >= 0xf5
  }

  predicate IsTemporal(fieldType: Byte) {
    fieldType == DATE || fieldType == NEW_DATE || fieldType == TIME || fieldType == TIMESTAMP || fieldType == DATE_TIME
  }

  /** intN(u) for an unsigned u of `width` bytes. */
  function SignExtend(u: nat, width: nat): int {
    if 2 * u < Pow256(width) then u else u - Pow256(width)
  }

  datatype CellRead = Bad(e: RowError) | Read(cell: Cell, used: nat)

  function ReadInteger(c: Col, q: seq<Byte>): CellRead {
    var w := IntWidth(c.fieldType);
    if |q| < w then Bad(OutOfBounds)
    else
      var u := FromLE(q[..w]);
      if !IsUnsigned(c) then Read(CInt(SignExtend(u, w)), w)
      else if w == 8 && u > MAX_INT64 then Read(CText(Decimal(u)), w)
      else Read(CInt(u), w)
  }

  /** The unsigned flag is the bit of value 32. */
  lemma UnsignedIsTheBitOf32(c: Col)
    ensures IsUnsigned(c) <==> c.flags / 32 % 2 == 1
  {
    var f := c.flags;
    assert Bit(f, 5) == Bit(f / 2, 4) == Bit(f / 2 / 2, 3) == Bit(f / 2 / 2 / 2, 2);
    assert Bit(f / 2 / 2 / 2, 2) == Bit(f / 2 / 2 / 2 / 2, 1) == Bit(f / 2 / 2 / 2 / 2 / 2, 0);
    assert f / 2 / 2 / 2 == f / 8 && f / 8 / 2 / 2 == f / 32;
  }

  /** The types of the protocol by their numbers: the widths of the integers, and the types that
      are sent with a length. */
  lemma TypesByNumber(t: Byte)
    ensures IntWidth(t) == (if t == 1 then 1 else if t == 2 || t == 13 then 2 else if t == 3 || t == 9 then 4
                            else if t == 8 then 8 else 0)
    ensures IsTemporal(t) <==> t == 7 || 10 <= t <= 12 || t == 14
    ensures IsText(t) <==> t == 0 || t == 15 || t == 16 || t >= 245
    ensures FLOAT == 4 && DOUBLE == 5 && NULL == 6 && DATE == 10 && TIME == 11
  {
  }

  /** 8 or 19 characters, and the fraction if there is one; None for illegal decimals. */
  function TextLength(whole: nat, decimals: Byte): Option<nat> {
    if decimals == 0x00 || decimals == 0x1f then Some(whole)
    else if 1 <= decimals <= 6 then Some(whole + 1 + decimals)
    else None
  }

  function Formatted(r: Result<seq<Byte>, DateTimes.TimeError>, used: nat): CellRead {
    match r
    case Ok(s) => Read(CText(s), used)
    case Err(e) => Bad(BadTime(e))
  }

  /** A temporal value of `num` bytes at the head of `q`, behind a prefix of `n`. The decimals
      are looked at before the bytes, and the parser looks at the length before both. */
  function ReadTemporal(c: Col, q: seq<Byte>, num: nat, n: nat, parseTime: bool): CellRead {
    if c.fieldType == TIME then
      var length := TextLength(8, c.decimals);
      if length.None? then Bad(IllegalDecimals)
      else if num > |q| then Bad(OutOfBounds)
      else Formatted(DateTimes.FormatBinaryTime(q[..num], length.value), n + num)
    else if parseTime then
      match DateTimes.ParseBinaryDateTime(num, q)
      case Ok(t) => Read(CMoment(t), n + num)
      case Err(e) => Bad(BadTime(e))
    else
      var length := if c.fieldType == DATE then Some(10) else TextLength(19, c.decimals);
      if length.None? then Bad(IllegalDecimals)
      else if num > |q| then Bad(OutOfBounds)
      else Formatted(DateTimes.FormatBinaryDateTime(q[..num], length.value), n + num)
  }

  /** One value that the bitmap does not mark, at the head of `q`. */
  function ReadCell(c: Col, q: seq<Byte>, parseTime: bool): CellRead {
    if c.fieldType == NULL then Read(CNull, 0)
    else if IntWidth(c.fieldType) > 0 then ReadInteger(c, q)
    else if c.fieldType == FLOAT then
      if |q| < 4 then Bad(OutOfBounds) else Read(CFloat32(FromLE(q[..4])), 4)
    else if c.fieldType == DOUBLE then
      if |q| < 8 then Bad(OutOfBounds) else Read(CFloat64(FromLE(q[..8])), 8)
    else if IsText(c.fieldType) then
      match ReadString(q)
      case Panic => Bad(OutOfBounds)
      case Short => Bad(ShortString)
      case Str(s, isNull, n) => Read(if isNull then CNull else CText(s), n)
    else if IsTemporal(c.fieldType) then
      match ReadInt(q)
      case None => Bad(OutOfBounds)
      case Some(IntRead(num, isNull, n)) =>
        if isNull then Read(CNull, n)
        else if n > |q| then Bad(OutOfBounds)
        else ReadTemporal(c, q[n..], num, n, parseTime)
    else Bad(UnknownType)
  }

  /** The cells from column `i` on. */
  function ReadCells(cols: seq<Col>, mask: seq<Byte>, i: nat, data: seq<Byte>, pos: nat, parseTime: bool)
    : Result<seq<Cell>, RowError>
    requires i <= |cols| && |mask| == BitmapLen(|cols|, 2)
    decreases |cols| - i
  {
    if i == |cols| then Ok([])
    else if Bit(mask[(i + 2) / 8], (i + 2) % 8) then
      ConsCell(CNull, ReadCells(cols, mask, i + 1, data, pos, parseTime))
    else if pos > |data| then Err(OutOfBounds)
    else match ReadCell(cols[i], data[pos..], parseTime)
      case Bad(e) => Err(e)
      case Read(cell, used) => ConsCell(cell, ReadCells(cols, mask, i + 1, data, pos + used, parseTime))
  }

  function ConsCell(c: Cell, rest: Result<seq<Cell>, RowError>): Result<seq<Cell>, RowError> {
    if rest.Err? then rest else Ok([c] + rest.value)
  }

  function ReadRow(cols: seq<Col>, data: seq<Byte>, parseTime: bool): Result<seq<Cell>, RowError> {
    var pos := 1 + BitmapLen(|cols|, 2);
    if pos > |data| then Err(OutOfBounds)
    else ReadCells(cols, data[1..pos], 0, data, pos, parseTime)
  }

  /** The column loop of BinaryRows.readRow. */
  method DecodeRow(cols: seq<Col>, data: seq<Byte>, parseTime: bool) returns (r: Result<seq<Cell>, RowError>)
    ensures r == ReadRow(cols, data, parseTime)
  {
    hide ReadCell, Bit;
    var pos: nat := 1 + (|cols| + 7 + 2) / 8;
    if pos > |data| { return Err(OutOfBounds); }
    var nullMask := data[1..pos];
    var dest: seq<Cell> := [];
    var i := 0;
    ghost var out := ReadCells(cols, nullMask, 0, data, pos, parseTime);
    if out.Ok? { EmptyLeft(out.value); }
    while i < |cols|
      invariant i <= |cols|
      invariant out == Behind(dest, ReadCells(cols, nullMask, i, data, pos, parseTime))
    {
      var cell := CNull;
      if !Bit(nullMask[(i + 2) / 8], (i + 2) % 8) {
        if pos > |data| { return Err(OutOfBounds); }
        var read := ReadCell(cols[i], data[pos..], parseTime);
        if read.Bad? { return Err(read.e); }
        cell := read.cell;
        pos := pos + read.used;
      }
      BehindOne(dest, cell, ReadCells(cols, nullMask, i + 1, data, pos, parseTime));
      dest := dest + [cell];
      i := i + 1;
    }
    assert dest + [] == dest;
    r := Ok(dest);
  }

  function Behind(before: seq<Cell>, r: Result<seq<Cell>, RowError>): Result<seq<Cell>, RowError> {
    if r.Err? then r else Ok(before + r.value)
  }

  lemma BehindOne(before: seq<Cell>, c: Cell, r: Result<seq<Cell>, RowError>)
    ensures Behind(before, ConsCell(c, r)) == Behind(before + [c], r)
  {
    if r.Ok? { Associate(before, [c], r.value); }
  }

  // ---- What a server sends ----

  datatype Value = VNull | VInt(i: int) | VFloat(bits: nat) | VText(s: seq<Byte>)
                 | VTemporal(t: T.Temporal, form: nat)

  /** The value belongs to the column. */
  ghost predicate Suits(c: Col, v: Value) {
    match v
    case VNull => true
    case VInt(i) =>
      var w := IntWidth(c.fieldType);
      w > 0 && (if IsUnsigned(c) then 0 <= i < Pow256(w) else -(Pow256(w) as int) <= 2 * i < Pow256(w))
    case VFloat(bits) => (c.fieldType == FLOAT && bits < Pow256(4)) || (c.fieldType == DOUBLE && bits < Pow256(8))
    case VText(s) => IsText(c.fieldType) && Fits(s)
    case VTemporal(t, form) => IsTemporal(c.fieldType) && (t.Span? <==> c.fieldType == TIME) && T.HasForm(t, form)
  }

  /** Two's complement in `w` bytes. */
  function Wrap(i: int, w: nat): (u: int)
    ensures -(Pow256(w) as int) <= i < Pow256(w) ==> 0 <= u < Pow256(w)
  {
    if i < 0 then i + Pow256(w) else i
  }

  ghost function EncodeValue(c: Col, v: Value): seq<Byte>
    requires Suits(c, v)
  {
    match v
    case VNull => []
    case VInt(i) => LE(Wrap(i, IntWidth(c.fieldType)), IntWidth(c.fieldType))
    case VFloat(bits) => LE(bits, if c.fieldType == FLOAT then 4 else 8)
    case VText(s) => EncodeString(s)
    case VTemporal(t, form) => EncodeString(T.Encode(t, form))
  }

  /** How many digits of a fraction the column shows; None for illegal decimals. */
  function FractionDigits(decimals: Byte): (d: Option<nat>)
    ensures d.Some? ==> d.value <= 6
  {
    if decimals == 0x1f then Some(0) else if decimals <= 6 then Some(decimals) else None
  }

  /** The text of a temporal value, or the error for a column with illegal decimals or for a
      field with too many digits. */
  function TemporalText(c: Col, t: T.Temporal): Result<Cell, RowError>
    requires t.Span? <==> c.fieldType == TIME
  {
    var digits := FractionDigits(c.decimals);
    if t.Point? && c.fieldType == DATE then
      if T.ShowsDate(t) then Ok(CText(T.PointText(t, 10))) else Err(BadTime(DateTimes.OutOfBounds))
    else if digits.None? then Err(IllegalDecimals)
    else if t.Span? then
      if t.min < 100 && t.sec < 100 then Ok(CText(T.SpanText(t, digits.value)))
      else Err(BadTime(DateTimes.OutOfBounds))
    else if T.ShowsDate(t) && T.ShowsClock(t) then
      Ok(CText(T.PointText(t, if digits.value == 0 then 19 else 20 + digits.value)))
    else Err(BadTime(DateTimes.OutOfBounds))
  }

  /** What the reader delivers for it: an unsigned value above MaxInt64 becomes its decimal
      digits; points in time are times if that is asked for, and otherwise, like all spans,
      texts. */
  function Delivered(c: Col, v: Value, parseTime: bool): Result<Cell, RowError>
    requires v.VTemporal? ==> (v.t.Span? <==> c.fieldType == TIME)
  {
    match v
    case VNull => Ok(CNull)
    case VInt(i) => Ok(if i > MAX_INT64 then CText(Decimal(i)) else CInt(i))
    case VFloat(bits) => Ok(if c.fieldType == FLOAT then CFloat32(bits) else CFloat64(bits))
    case VText(s) => Ok(CText(s))
    case VTemporal(t, form) =>
      if t.Point? && parseTime then Ok(CMoment(if form == 0 then DateTimes.ZeroTime else T.MomentOf(t)))
      else TemporalText(c, t)
  }

  ghost predicate AllSuit(cols: seq<Col>, vs: seq<Value>) {
    |cols| == |vs| && forall i | 0 <= i < |vs| :: Suits(cols[i], vs[i])
  }

  function NullsOf(vs: seq<Value>): (ns: seq<bool>)
    ensures |ns| == |vs| && forall i | 0 <= i < |ns| :: ns[i] == vs[i].VNull?
  {
    seq(|vs|, i requires 0 <= i < |vs| => vs[i].VNull?)
  }

  ghost function EncodeValues(cols: seq<Col>, vs: seq<Value>, i: nat): seq<Byte>
    requires AllSuit(cols, vs) && i <= |vs|
    decreases |vs| - i
  {
    if i == |vs| then [] else EncodeValue(cols[i], vs[i]) + EncodeValues(cols, vs, i + 1)
  }

  ghost function EncodeRow(cols: seq<Col>, vs: seq<Value>): seq<Byte>
    requires AllSuit(cols, vs)
  {
    [0x00] + Bitmap(NullsOf(vs), 2, |vs|) + EncodeValues(cols, vs, 0)
  }

  ghost function DeliveredFrom(cols: seq<Col>, vs: seq<Value>, i: nat, parseTime: bool): Result<seq<Cell>, RowError>
    requires AllSuit(cols, vs) && i <= |vs|
    decreases |vs| - i
  {
    if i == |vs| then Ok([])
    else match Delivered(cols[i], vs[i], parseTime)
      case Err(e) => Err(e)
      case Ok(c) => ConsCell(c, DeliveredFrom(cols, vs, i + 1, parseTime))
  }

  lemma IntegerRead(c: Col, i: int, rest: seq<Byte>, parseTime: bool)
    requires Suits(c, VInt(i))
    ensures var e := EncodeValue(c, VInt(i));
            ReadInteger(c, e + rest) == Read(Delivered(c, VInt(i), parseTime).value, |e|)
  {
    var w := IntWidth(c.fieldType);
    var u := Wrap(i, w);
    assert (LE(u, w) + rest)[..w] == LE(u, w);
    FromLEInvertsLE(u, w);
    Widths();
    assert Pow256(4) == 256 * Pow256(3);
  }

  lemma FloatRead(bits: nat, w: nat, rest: seq<Byte>)
    requires bits < Pow256(w)
    ensures FromLE((LE(bits, w) + rest)[..w]) == bits
  {
    assert (LE(bits, w) + rest)[..w] == LE(bits, w);
    FromLEInvertsLE(bits, w);
  }

  /** Whatever the bytes behind the length, the reader hands exactly them on. */
  lemma TemporalBytes(c: Col, src: seq<Byte>, rest: seq<Byte>, parseTime: bool)
    requires IsTemporal(c.fieldType) && Fits(src)
    ensures ReadCell(c, EncodeString(src) + rest, parseTime)
         == ReadTemporal(c, src + rest, |src|, |EncodeInt(|src|)|, parseTime)
  {
    hide ReadInt, EncodeInt, ReadTemporal;
    var h := EncodeInt(|src|);
    var q := EncodeString(src) + rest;
    ReadIntInvertsEncodeInt(|src|, src + rest);
    Associate(h, src, rest);
    assert q[|h|..] == src + rest;
  }

  lemma TemporalRead(c: Col, t: T.Temporal, form: nat, rest: seq<Byte>, parseTime: bool)
    requires Suits(c, VTemporal(t, form))
    ensures var e := EncodeValue(c, VTemporal(t, form));
            match Delivered(c, VTemporal(t, form), parseTime)
            case Ok(cell) => ReadCell(c, e + rest, parseTime) == Read(cell, |e|)
            case Err(x) => ReadCell(c, e + rest, parseTime) == Bad(x)
  {
    hide EncodeInt, DateTimes.FormatBinaryTime, DateTimes.FormatBinaryDateTime, DateTimes.ParseBinaryDateTime;
    hide T.Encode, T.SpanText, T.PointText, ReadCell;
    var src := T.Encode(t, form);
    Widths();
    TemporalBytes(c, src, rest, parseTime);
    assert (src + rest)[..|src|] == src;
    var digits := FractionDigits(c.decimals);
    if t.Span? {
      if digits.Some? { T.SpanFormats(t, form, digits.value); }
    } else if parseTime {
      T.PointParses(t, form, rest);
    } else if c.fieldType == DATE {
      T.PointFormats(t, form, 10);
    } else if digits.Some? {
      T.PointFormats(t, form, if digits.value == 0 then 19 else 20 + digits.value);
    }
  }

  /** Reading one value inverts encoding it. */
  lemma CellReadBack(c: Col, v: Value, rest: seq<Byte>, parseTime: bool)
    requires Suits(c, v) && !v.VNull?
    ensures var e := EncodeValue(c, v);
            match Delivered(c, v, parseTime)
            case Ok(cell) => ReadCell(c, e + rest, parseTime) == Read(cell, |e|)
            case Err(x) => ReadCell(c, e + rest, parseTime) == Bad(x)
  {
    match v
    case VInt(i) =>
      hide ReadInteger, LE, FromLE;
      IntegerRead(c, i, rest, parseTime);
    case VFloat(bits) => FloatRead(bits, if c.fieldType == FLOAT then 4 else 8, rest);
    case VText(s) =>
      hide ReadString, EncodeString;
      ReadStringInvertsEncodeString(s, rest);
    case VTemporal(t, form) => TemporalRead(c, t, form, rest, parseTime);
  }

  lemma {:induction false} CellsReadBack(cols: seq<Col>, vs: seq<Value>, i: nat, prefix: seq<Byte>, parseTime: bool)
    requires AllSuit(cols, vs) && i <= |vs|
    ensures ReadCells(cols, Bitmap(NullsOf(vs), 2, |vs|), i, prefix + EncodeValues(cols, vs, i), |prefix|, parseTime)
         == DeliveredFrom(cols, vs, i, parseTime)
    decreases |vs| - i
  {
    hide ReadCell, ReadCells, EncodeValue, EncodeValues, Bitmap, Bit, Delivered, DeliveredFrom;
    ValuesStep(cols, vs, i, parseTime);
    if i == |vs| {
      NoCells(cols, Bitmap(NullsOf(vs), 2, |vs|), prefix + EncodeValues(cols, vs, i), |prefix|, parseTime);
    } else {
      BitmapBits(NullsOf(vs), 2, |vs|, i);
      var e, more := EncodeValue(cols[i], vs[i]), EncodeValues(cols, vs, i + 1);
      CellStep(cols, Bitmap(NullsOf(vs), 2, |vs|), i, prefix, e + more, parseTime);
      Associate(prefix, e, more);
      CellsReadBack(cols, vs, i + 1, prefix + e, parseTime);
      if vs[i].VNull? {
        NullValue(cols[i], parseTime);
        assert prefix + e == prefix;
      } else {
        CellReadBack(cols[i], vs[i], more, parseTime);
      }
    }
  }

  lemma NoCells(cols: seq<Col>, mask: seq<Byte>, data: seq<Byte>, pos: nat, parseTime: bool)
    requires |mask| == BitmapLen(|cols|, 2)
    ensures ReadCells(cols, mask, |cols|, data, pos, parseTime) == Ok([])
  {
  }

  lemma ValuesStep(cols: seq<Col>, vs: seq<Value>, i: nat, parseTime: bool)
    requires AllSuit(cols, vs) && i <= |vs|
    ensures i == |vs| ==> DeliveredFrom(cols, vs, i, parseTime) == Ok([])
    ensures i < |vs| ==>
              && EncodeValues(cols, vs, i) == EncodeValue(cols[i], vs[i]) + EncodeValues(cols, vs, i + 1)
              && DeliveredFrom(cols, vs, i, parseTime)
                 == match Delivered(cols[i], vs[i], parseTime)
                    case Err(e) => Err(e)
                    case Ok(c) => ConsCell(c, DeliveredFrom(cols, vs, i + 1, parseTime))
  {
    hide EncodeValue, Delivered;
  }

  /** Unfolds the reader once, in front of `q`. */
  lemma CellStep(cols: seq<Col>, mask: seq<Byte>, i: nat, prefix: seq<Byte>, q: seq<Byte>, parseTime: bool)
    requires i < |cols| && |mask| == BitmapLen(|cols|, 2)
    ensures var data := prefix + q;
            ReadCells(cols, mask, i, data, |prefix|, parseTime)
            == if Bit(mask[(i + 2) / 8], (i + 2) % 8) then
                 ConsCell(CNull, ReadCells(cols, mask, i + 1, data, |prefix|, parseTime))
               else match ReadCell(cols[i], q, parseTime)
                 case Bad(e) => Err(e)
                 case Read(cell, used) =>
                   ConsCell(cell, ReadCells(cols, mask, i + 1, data, |prefix| + used, parseTime))
  {
    hide ReadCell, Bit;
    assert (prefix + q)[|prefix|..] == q;
  }

  lemma NullValue(c: Col, parseTime: bool)
    ensures EncodeValue(c, VNull) == [] && Delivered(c, VNull, parseTime) == Ok(CNull)
  {
  }

  /** The row reader inverts the row encoding for every list of columns. */
  lemma ReadRowInvertsEncodeRow(cols: seq<Col>, vs: seq<Value>, parseTime: bool)
    requires AllSuit(cols, vs)
    ensures ReadRow(cols, EncodeRow(cols, vs), parseTime) == DeliveredFrom(cols, vs, 0, parseTime)
  {
    hide ReadCells, EncodeValues, Bitmap, DeliveredFrom;
    var m := Bitmap(NullsOf(vs), 2, |vs|);
    var data := [0x00] + m + EncodeValues(cols, vs, 0);
    assert data[1..1 + |m|] == m;
    CellsReadBack(cols, vs, 0, [0x00] + m, parseTime);
  }
}
