/** Length-encoded integers and strings, and the text rows made of them. */
module LengthEncoding {
  import opened Bytes

  /** The value read, whether it was the NULL marker, and the bytes consumed. */
  datatype IntRead = IntRead(num: nat, isNull: bool, n: nat)

  /** None: an index ran past the end of the slice (a run-time panic). */
  function ReadInt(b: seq<Byte>): (r: Option<IntRead>)
    ensures r.Some? ==> r.value.num < Pow256(8) && 1 <= r.value.n <= 9
    ensures r.Some? && b != [] ==> r.value.n <= |b|
  {
    Widths();
    if b == [] then Some(IntRead(0, true, 1))
    else if b[0] == 0xfb then Some(IntRead(0, true, 1))
    else if b[0] == 0xfc then ReadWide(b, 2)
    else if b[0] == 0xfd then ReadWide(b, 3)
    else if b[0] == 0xfe then ReadWide(b, 8)
    else Some(IntRead(b[0], false, 1))
  }

  function ReadWide(b: seq<Byte>, width: nat): (r: Option<IntRead>)
    ensures r.Some? <==> |b| > width
    ensures r.Some? ==> r.value == IntRead(FromLE(b[1..1 + width]), false, width + 1)
                        && r.value.num < Pow256(width)
  {
    if |b| <= width then None
    else
      LEInvertsFromLE(b[1..1 + width]);
      Some(IntRead(FromLE(b[1..1 + width]), false, width + 1))
  }

  lemma Widths()
    ensures Pow256(1) == 0x100 && Pow256(2) == 0x1_0000 && Pow256(3) == 0x100_0000
    ensures Pow256(8) == 0x1_0000_0000_0000_0000
  {
    assert Pow256(2) == 256 * Pow256(1);
    assert Pow256(4) == 256 * Pow256(3);
    assert Pow256(6) == 256 * Pow256(5);
    assert Pow256(8) == 256 * Pow256(7);
  }

  function EncodeInt(n: nat): (e: seq<Byte>)
    requires n < Pow256(8)
    ensures |e| > 0 && e[0] != 0xfb && e[0] != 0xff
    ensures e[0] == 0xfe <==> n >= 0x100_0000
    ensures |e| == if n <= 250 then 1 else if n < 0x1_0000 then 3 else if n < 0x100_0000 then 4 else 9
  {
    if n <= 250 then [n]
    else if n <= 0xffff then [0xfc] + LE(n, 2)
    else if n <= 0xffffff then [0xfd] + LE(n, 3)
    else [0xfe] + LE(n, 8)
  }

  /** Reading inverts appending, whatever follows. */
  lemma ReadIntInvertsEncodeInt(n: nat, rest: seq<Byte>)
    requires n < Pow256(8)
    ensures ReadInt(EncodeInt(n) + rest) == Some(IntRead(n, false, |EncodeInt(n)|))
  {
    Widths();
    var b := EncodeInt(n) + rest;
    var w := |EncodeInt(n)| - 1;
    if w > 0 {
      assert b[1..1 + w] == LE(n, w);
      FromLEInvertsLE(n, w);
    }
  }

  /** No other byte string that reads as `n` is shorter, with one family of exceptions: the
      reader takes a leading 0xff, which no encoder emits, for the number 255. */
  lemma EncodeIntIsMinimal(e: seq<Byte>, n: nat, len: nat)
    requires ReadInt(e) == Some(IntRead(n, false, len))
    ensures n < Pow256(8) && (|EncodeInt(n)| <= len <==> e[0] != 0xff)
  {
    Widths();
  }

  /** Self-delimiting: one encoding is never a proper prefix of another. */
  lemma EncodeIntIsPrefixFree(a: nat, b: nat, rest: seq<Byte>)
    requires a < Pow256(8) && b < Pow256(8)
    requires EncodeInt(a) + rest == EncodeInt(b)
    ensures a == b && rest == []
  {
    ReadIntInvertsEncodeInt(a, rest);
    ReadIntInvertsEncodeInt(b, []);
    assert EncodeInt(b) + [] == EncodeInt(b);
  }

  /** `Short`: the string runs past the slice, the reader's io.EOF. */
  datatype StringRead = Panic | Short | Str(value: seq<Byte>, isNull: bool, n: nat)

  function ReadString(b: seq<Byte>): (r: StringRead)
    ensures r.Str? ==> 1 <= r.n && (b != [] ==> r.n <= |b|)
  {
    match ReadInt(b)
    case None => Panic
    case Some(IntRead(num, isNull, n)) =>
      if num < 1 then Str([], isNull, n)
      // int(num), or its sum with n, is negative and so is the slice bound
      else if num + 9 >= 0x8000_0000_0000_0000 then Panic
      else if |b| >= n + num then Str(b[n..n + num], false, n + num)
      else Short
  }

  /** The skipping variant consumes exactly what the reader would. */
  function SkipString(b: seq<Byte>): (r: StringRead)
    ensures r.Str? <==> ReadString(b).Str?
    ensures r.Str? ==> r.n == ReadString(b).n && r.value == []
    ensures r.Short? <==> ReadString(b).Short?
  {
    match ReadInt(b)
    case None => Panic
    case Some(IntRead(num, isNull, n)) =>
      if num < 1 then Str([], isNull, n)
      else if num + 9 >= 0x8000_0000_0000_0000 then Panic
      else if |b| >= n + num then Str([], false, n + num)
      else Short
  }

  /** A Go string or slice: its length is an int64. */
  ghost predicate Fits(s: seq<Byte>)
  {
    |s| + 9 < 0x8000_0000_0000_0000 && |s| < Pow256(8)
  }

  function EncodeString(s: seq<Byte>): (e: seq<Byte>)
    requires |s| < Pow256(8)
    ensures |e| > |s| && e[0] != 0xfb && e[0] != 0xff
    ensures e[0] == 0xfe <==> |s| >= 0x100_0000
    ensures e[0] == 0xfe ==> |e| >= 9 + 0x100_0000
  {
    EncodeInt(|s|) + s
  }

  lemma ReadStringInvertsEncodeString(s: seq<Byte>, rest: seq<Byte>)
    requires Fits(s)
    ensures ReadString(EncodeString(s) + rest) == Str(s, false, |EncodeString(s)|)
  {
    Widths();
    var b := EncodeString(s) + rest;
    assert b == EncodeInt(|s|) + (s + rest);
    ReadIntInvertsEncodeInt(|s|, s + rest);
    var n := |EncodeInt(|s|)|;
    assert b[n..n + |s|] == s;
  }

  // ---- Text rows ----

  type Field = Option<seq<Byte>>

  function EncodeField(f: Field): (e: seq<Byte>)
    requires f.Some? ==> |f.value| < Pow256(8)
    ensures |e| > 0 && e[0] != 0xff
    ensures e[0] == 0xfe <==> f.Some? && |f.value| >= 0x100_0000
    ensures e[0] == 0xfe ==> |e| > 0x100_0000
  {
    if f.None? then [0xfb] else EncodeString(f.value)
  }

  ghost predicate RowFits(fields: seq<Field>)
  {
    forall f | f in fields && f.Some? :: Fits(f.value)
  }

  ghost function EncodeRow(fields: seq<Field>): (e: seq<Byte>)
    requires RowFits(fields)
  {
    if fields == [] then [] else EncodeField(fields[0]) + EncodeRow(fields[1..])
  }

  datatype RowRead = RowPanic | RowShort | Row(fields: seq<Field>)

  /** The field loop of the row reader, over the rest of the packet. */
  function ReadFields(data: seq<Byte>, pos: nat, count: nat): RowRead
    decreases count
  {
    if count == 0 then Row([])
    else if pos > |data| then RowPanic
    else match ReadString(data[pos..])
      case Panic => RowPanic
      case Short => RowShort
      case Str(value, isNull, n) =>
        match ReadFields(data, pos + n, count - 1)
        case Row(fields) => Row([if isNull then None else Some(value)] + fields)
        case other => other
  }

  lemma FieldRead(f: Field, rest: seq<Byte>)
    requires f.Some? ==> Fits(f.value)
    ensures var r := ReadString(EncodeField(f) + rest);
            r.Str? && r.n == |EncodeField(f)| && f == if r.isNull then None else Some(r.value)
  {
    if f.Some? {
      ReadStringInvertsEncodeString(f.value, rest);
    }
  }

  lemma OneMoreField(data: seq<Byte>, pos: nat, n: nat, f: Field, fields: seq<Field>)
    requires pos <= |data|
    requires var r := ReadString(data[pos..]);
             r.Str? && r.n == n && f == if r.isNull then None else Some(r.value)
    requires ReadFields(data, pos + n, |fields|) == Row(fields)
    ensures ReadFields(data, pos, |fields| + 1) == Row([f] + fields)
  {
  }

  lemma NoField(data: seq<Byte>, pos: nat)
    ensures ReadFields(data, pos, 0) == Row([])
  {
  }

  /** Reading a row field by field inverts encoding it. */
  lemma {:induction false} ReadFieldsInvertsEncodeRow(prefix: seq<Byte>, fields: seq<Field>)
    requires RowFits(fields)
    ensures ReadFields(prefix + EncodeRow(fields), |prefix|, |fields|) == Row(fields)
    decreases |fields|
  {
    hide ReadFields, ReadString, EncodeField;
    if fields == [] {
      NoField(prefix + EncodeRow(fields), |prefix|);
    } else {
      var e, more := EncodeField(fields[0]), EncodeRow(fields[1..]);
      var data := prefix + (e + more);
      Associate(prefix, e, more);
      ReadFieldsInvertsEncodeRow(prefix + e, fields[1..]);
      FieldRead(fields[0], more);
      assert data[|prefix|..] == e + more;
      OneMoreField(data, |prefix|, |e|, fields[0], fields[1..]);
      HeadTail(fields);
    }
  }

  const IOK: Byte := 0x00
  const ILocalInFile: Byte := 0xfb
  const IEOF: Byte := 0xfe
  const IERR: Byte := 0xff

  /** The tests by which the row readers recognise the end of the rows and an error. */
  predicate IsRowEof(data: seq<Byte>)
  {
    |data| == 5 && data[0] == IEOF
  }

  predicate IsErr(data: seq<Byte>)
  {
    |data| > 0 && data[0] == IERR
  }

  /** A row of at least one column is never taken for an EOF or ERR packet, however it starts;
      it starts with the EOF marker exactly when its first field has 2^24 bytes or more. */
  lemma RowIsNeverEofOrErr(fields: seq<Field>)
    requires RowFits(fields) && fields != []
    ensures var e := EncodeRow(fields);
            && |e| > 0 && !IsRowEof(e) && !IsErr(e)
            && (e[0] == IEOF <==> fields[0].Some? && |fields[0].value| >= 0x100_0000)
  {
    var f := EncodeField(fields[0]);
    assert EncodeRow(fields)[0] == f[0];
    if f[0] == IEOF {
      assert |EncodeRow(fields)| >= |f| > 5;
    }
  }
}
