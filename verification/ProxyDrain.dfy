/** Forwarding a replica's answer: the query is sent, and header, columns and rows are decoded
    while their bytes are copied to the client. */
module Proxying {
  import opened Bytes
  import opened Buffers
  import opened LengthEncoding
  import opened Connections
  import opened ResultSets
  import Framing

  // ---- Column definitions ----

  datatype Column = Column(name: seq<Byte>, charSet: Byte, length: nat, fieldType: Byte, flags: nat, decimals: Byte)

  /** Position behind `k` length-encoded strings from `pos`. */
  function Skip(data: seq<Byte>, pos: nat, k: nat): Result<nat, Error>
    decreases k
  {
    if k == 0 then Ok(pos)
    else if pos > |data| then Err(RuntimePanic)
    else match SkipString(data[pos..])
      case Panic => Err(RuntimePanic)
      case Short => Err(EndOfRows)
      case Str(_, _, n) => Skip(data, pos + n, k - 1)
  }

  /** Catalog, database, table, original table, name, original name, then the fixed part. */
  function ParseColumn(data: seq<Byte>): Result<Column, Error> {
    match Skip(data, 0, 4)
    case Err(e) => Err(e)
    case Ok(p) =>
      if p > |data| then Err(RuntimePanic)
      else match ReadString(data[p..])
        case Panic => Err(RuntimePanic)
        case Short => Err(EndOfRows)
        case Str(name, _, n) =>
          match Skip(data, p + n, 1)
          case Err(e) => Err(e)
          case Ok(q) =>
            // filler, charset (2), length (4), type, flags (2), decimals
            if q + 11 > |data| then Err(RuntimePanic)
            else Ok(Column(name, data[q + 1], FromLE(data[q + 3..q + 7]), data[q + 7],
                           FromLE(data[q + 8..q + 10]), data[q + 10]))
  }

  predicate IsColumnsEof(data: seq<Byte>) {
    data != [] && data[0] == IEOF && (|data| == 5 || |data| == 1)
  }

  /** The column loop from column `i` on, over the packets of the inbox. */
  function ColumnsSpec(v: View, i: nat, count: nat): (out: Out<seq<Column>>)
    ensures out.Done? ==> |out.value| == count - i
    decreases |v.ps|
  {
    if v.ps == [] then Broken
    else
      var data, w := v.ps[0], v.(ps := v.ps[1..]);
      if IsColumnsEof(data) then
        if i == count then Done(w, []) else Stop(w, ColumnMismatch)
      else match ParseColumn(data)
        case Err(e) => Stop(w, e)
        case Ok(c) =>
          if i >= count then Stop(w, RuntimePanic)
          else match ColumnsSpec(w, i + 1, count)
            case Done(x, cs) => Done(x, [c] + cs)
            case other => other
  }

  /** One turn of the column loop: a column, the end, or an error. */
  method ReadColumn1(mc: MysqlConn, i: nat, count: nat, dst: Sink)
      returns (more: bool, r: Result<Option<Column>, Error>)
    requires mc.Valid() && i <= count
    modifies mc.Repr(), dst
    ensures mc.Valid() && fresh(mc.Repr() - old(mc.Repr()))
    ensures more ==> r.Ok? && r.value.Some? && i < count && |mc.Inbox()| < |old(mc.Inbox())|
                     && ColumnsSpec(old(ViewOf(mc)), i, count)
                        == Prepend([r.value.value], ColumnsSpec(ViewOf(mc), i + 1, count))
    ensures !more ==> match ColumnsSpec(old(ViewOf(mc)), i, count)
                      case Done(v, cs) => r == Ok(None) && cs == [] && i == count && ViewOf(mc) == v
                      case Stop(v, e) => r == Err(e) && ViewOf(mc) == v
                      case Broken => r.Err?
    ensures more || !ColumnsSpec(old(ViewOf(mc)), i, count).Broken? ==>
              Flow(mc, dst) == old(Flow(mc, dst)) && mc.closed == old(mc.closed)
  {
    var packet := NextPacket(mc, dst);
    if packet.Err? { return false, Err(packet.error); }
    var data := packet.value;
    if IsColumnsEof(data) {
      return false, if i == count then Ok(None) else Err(ColumnMismatch);
    }
    var c := ParseColumn(data);
    if c.Err? { return false, Err(c.error); }
    if i >= count { return false, Err(RuntimePanic); }
    return true, Ok(Some(c.value));
  }

  method ReadColumns1(mc: MysqlConn, count: nat, dst: Sink) returns (r: Result<seq<Column>, Error>)
    requires mc.Valid()
    modifies mc.Repr(), dst
    ensures mc.Valid() && fresh(mc.Repr() - old(mc.Repr()))
    ensures Agrees(ColumnsSpec(old(ViewOf(mc)), 0, count), ViewOf(mc), r)
    ensures !ColumnsSpec(old(ViewOf(mc)), 0, count).Broken? ==>
              Flow(mc, dst) == old(Flow(mc, dst)) && mc.closed == old(mc.closed)
  {
    hide ColumnsSpec, ParseColumn, ViewOf, Flow, MysqlConn.Valid, MysqlConn.Inbox;
    var columns: seq<Column> := [];
    ghost var out := ColumnsSpec(ViewOf(mc), 0, count);
    assert Prepend([], out) == out by { if out.Done? { EmptyLeft(out.value); } }
    while true
      invariant mc.Valid() && fresh(mc.Repr() - old(mc.Repr())) && |columns| <= count
      invariant out == Prepend(columns, ColumnsSpec(ViewOf(mc), |columns|, count))
      invariant Flow(mc, dst) == old(Flow(mc, dst)) && mc.closed == old(mc.closed)
      decreases |mc.Inbox()|
    {
      var more, c := ReadColumn1(mc, |columns|, count, dst);
      if !more {
        r := if c.Ok? then Ok(columns) else Err(c.error);
        assert columns + [] == columns;
        return;
      }
      PrependTwice(columns, c.value.value, ColumnsSpec(ViewOf(mc), |columns| + 1, count));
      columns := columns + [c.value.value];
    }
  }

  function Prepend(before: seq<Column>, out: Out<seq<Column>>): Out<seq<Column>> {
    match out
    case Done(v, cs) => Done(v, before + cs)
    case other => other
  }

  lemma PrependTwice(before: seq<Column>, c: Column, out: Out<seq<Column>>)
    ensures Prepend(before, Prepend([c], out)) == Prepend(before + [c], out)
  {
    if out.Done? {
      Associate(before, [c], out.value);
    }
  }

  // ---- The row set handed to the proxy ----

  /** TextRows: `mc` becomes null when nothing is left to read. */
  class TextRows {
    var mc: MysqlConn?
    var done: bool
    var columns: seq<Column>

    constructor (mc: MysqlConn)
      ensures this.mc == mc && !done && columns == []
    {
      this.mc, done, columns := mc, false, [];
    }
  }

  /** mc.error(): the cause of the cancellation, if that is known, once the connection is closed. */
  function ConnError(mc: MysqlConn): Option<Error>
    reads mc
  {
    if !mc.closed then None
    else if mc.canceled.Some? then Some(CanceledBy(mc.canceled.value))
    else Some(InvalidConn)
  }

  /** The next result that has columns; 0 if the status announces no further result. */
  function NextNotEmptySpec(v: View): (out: Out<int>)
    ensures out.Done? ==> out.value >= 0
    decreases |v.ps|
  {
    if !More(v.status) then Done(v, 0)
    else match HeaderSpec(v)
      case Done(w, resLen) => if resLen > 0 then Done(w, resLen) else NextNotEmptySpec(w)
      case other => other
  }

  /** One turn of nextNotEmptyResultSet1, on a row set whose rows are all read. */
  method NextResultSet1(rows: TextRows, mc: MysqlConn, dst: Sink) returns (r: Result<int, Error>)
    requires mc.Valid() && rows.mc == mc && rows.done
    modifies mc.Repr(), dst, rows
    ensures mc.Valid() && fresh(mc.Repr() - old(mc.Repr()))
    ensures old(ConnError(mc)).Some? ==> r == Err(old(ConnError(mc)).value) && rows.mc == mc
    ensures old(ConnError(mc)).None? ==>
              if !More(old(mc.status)) then r == Err(EndOfRows) && rows.mc == null && ViewOf(mc) == old(ViewOf(mc))
              else rows.mc == mc && !rows.done && Agrees(HeaderSpec(old(ViewOf(mc))), ViewOf(mc), r)
                   && (r.Err? ==> r.error != EndOfRows)
    ensures !More(old(mc.status)) || !HeaderSpec(old(ViewOf(mc))).Broken? ==>
              Flow(mc, dst) == old(Flow(mc, dst)) && mc.closed == old(mc.closed)
  {
    hide HeaderSpec, Framing.Inbox, Framing.Leftover;
    var e := ConnError(mc);
    if e.Some? { return Err(e.value); }
    if !More(mc.status) {
      rows.mc := null;
      return Err(EndOfRows);
    }
    rows.done, rows.columns := false, [];
    r := ReadResultSetHeaderPacket(mc, dst);
  }

  method NextNotEmptyResultSet1(rows: TextRows, mc: MysqlConn, dst: Sink) returns (r: Result<int, Error>)
    requires mc.Valid() && rows.mc == mc && rows.done && !mc.closed
    modifies mc.Repr(), dst, rows
    ensures mc.Valid() && fresh(mc.Repr() - old(mc.Repr()))
    ensures match NextNotEmptySpec(old(ViewOf(mc)))
            case Done(v, n) => (if n == 0 then r == Err(EndOfRows) && rows.mc == null
                                else r == Ok(n) && rows.mc == mc && !rows.done) && ViewOf(mc) == v
            case Stop(v, e) => r == Err(e) && e != EndOfRows && ViewOf(mc) == v
            case Broken => r.Err? && r.error != EndOfRows
    ensures !NextNotEmptySpec(old(ViewOf(mc))).Broken? ==> Flow(mc, dst) == old(Flow(mc, dst)) && !mc.closed
  {
    hide HeaderSpec, NextNotEmptySpec, Flow, MysqlConn.Valid, MysqlConn.Inbox;
    ghost var out := NextNotEmptySpec(ViewOf(mc));
    while true
      invariant mc.Valid() && fresh(mc.Repr() - old(mc.Repr()))
      invariant rows.mc == mc && rows.done && !mc.closed
      invariant NextNotEmptySpec(ViewOf(mc)) == out
      invariant Flow(mc, dst) == old(Flow(mc, dst))
      decreases |mc.Inbox()|
    {
      NextNotEmptyStep(ViewOf(mc));
      r := NextResultSet1(rows, mc, dst);
      if r.Err? || r.value > 0 { return; }
      rows.done := true;
    }
  }

  lemma NextNotEmptyStep(v: View)
    ensures !More(v.status) ==> NextNotEmptySpec(v) == Done(v, 0)
    ensures More(v.status) ==>
              match HeaderSpec(v)
              case Done(w, n) => NextNotEmptySpec(v) == if n > 0 then Done(w, n) else NextNotEmptySpec(w)
              case other => NextNotEmptySpec(v) == other
  {
  }

  // ---- Rows ----

  function PrependFields(before: seq<Field>, r: RowRead): RowRead {
    match r
    case Row(fields) => Row(before + fields)
    case other => other
  }

  /** Number and date columns, whose text is converted: TINY to DOUBLE, TIMESTAMP to DATE,
      DATETIME to NEWDATE. */
  predicate IsConverted(fieldType: Byte) {
    0x01 <= fieldType <= 0x05 || 0x07 <= fieldType <= 0x0a || 0x0c <= fieldType <= 0x0e
  }

  /** What decoding a row reports: converting a field to a number or date may fail besides. */
  ghost predicate RowResult(read: RowRead, columns: seq<Column>, r: Result<seq<Field>, Error>) {
    (r == Err(Conversion) && exists i :: 0 <= i < |columns| && IsConverted(columns[i].fieldType))
    || match read
       case Row(fields) => r == Ok(fields)
       case RowShort => r == Err(EndOfRows)
       case RowPanic => r == Err(RuntimePanic)
  }

  /** The field loop of readRow1. */
  method DecodeFields(data: seq<Byte>, columns: seq<Column>) returns (r: Result<seq<Field>, Error>)
    ensures RowResult(ReadFields(data, 0, |columns|), columns, r)
  {
    hide ReadFields, ReadString;
    var count := |columns|;
    var fields: seq<Field> := [];
    var pos: nat := 0;
    EmptyFields(ReadFields(data, 0, count));
    while |fields| < count
      invariant |fields| <= count
      invariant ReadFields(data, 0, count) == PrependFields(fields, ReadFields(data, pos, count - |fields|))
    {
      FieldStep(data, pos, count - |fields|);
      if pos > |data| { return Err(RuntimePanic); }
      var s := ReadString(data[pos..]);
      if s.Panic? { return Err(RuntimePanic); }
      if s.Short? { return Err(EndOfRows); }
      var field := if s.isNull then None else Some(s.value);
      if field.Some? && IsConverted(columns[|fields|].fieldType) {
        if * { return Err(Conversion); }
      }
      PrependField(fields, field, ReadFields(data, pos + s.n, count - |fields| - 1));
      pos := pos + s.n;
      fields := fields + [field];
    }
    NoField(data, pos);
    assert fields + [] == fields;
    r := Ok(fields);
  }

  lemma FieldStep(data: seq<Byte>, pos: nat, count: nat)
    requires count > 0
    ensures pos > |data| ==> ReadFields(data, pos, count) == RowPanic
    ensures pos <= |data| ==>
              match ReadString(data[pos..])
              case Panic => ReadFields(data, pos, count) == RowPanic
              case Short => ReadFields(data, pos, count) == RowShort
              case Str(value, isNull, n) =>
                ReadFields(data, pos, count)
                == PrependFields([if isNull then None else Some(value)], ReadFields(data, pos + n, count - 1))
  {
  }

  lemma EmptyFields(r: RowRead)
    ensures PrependFields([], r) == r
  {
    if r.Row? { EmptyLeft(r.fields); }
  }

  lemma PrependField(before: seq<Field>, f: Field, r: RowRead)
    ensures PrependFields(before, PrependFields([f], r)) == PrependFields(before + [f], r)
  {
    if r.Row? { Associate(before, [f], r.fields); }
  }

  ghost function ReprOf(mc: MysqlConn?): set<object>
    reads mc, if mc == null then {} else {mc.buf}
  {
    if mc == null then {} else mc.Repr()
  }

  /** readRow1 on a live row set: one packet, either a row, the end of the rows, or an error. */
  method ReadRow1(rows: TextRows, mc: MysqlConn, dst: Sink) returns (r: Result<seq<Field>, Error>)
    requires mc.Valid() && rows.mc == mc && !rows.done && !mc.closed
    modifies mc.Repr(), dst, rows
    ensures mc.Valid() && fresh(mc.Repr() - old(mc.Repr()))
    ensures old(mc.Inbox()) == [] ==> r.Err? && r.error != EndOfRows && rows.mc == mc && !rows.done
    ensures mc.canceled == old(mc.canceled)
    ensures old(mc.Inbox()) == [] && mc.canceled.None? && (old(mc.Fate()).Lost? || old(mc.Fate()).Malformed?) ==>
              mc.closed
    ensures old(mc.Inbox()) != [] ==> mc.Fate() == old(mc.Fate())
    ensures old(mc.Inbox()) != [] ==>
              var data := old(mc.Inbox())[0];
              && mc.Inbox() == old(mc.Inbox())[1..] && mc.Leftover() == old(mc.Leftover())
              && Flow(mc, dst) == old(Flow(mc, dst)) && !mc.closed && rows.columns == old(rows.columns)
              && (IsRowEof(data) ==> r == Err(EndOfRows) && rows.done && mc.status == FromLE(data[3..5])
                                     && rows.mc == if More(mc.status) then mc else null)
              && (IsErr(data) ==> r == Err(ErrorOf(data)) && rows.mc == null)
              && (!IsRowEof(data) && !IsErr(data) ==>
                    RowResult(ReadFields(data, 0, |rows.columns|), rows.columns, r) && rows.mc == mc && !rows.done)
  {
    hide ReadFields, Framing.Inbox, Framing.Leftover, Framing.Fate;
    var packet := NextPacket(mc, dst);
    if packet.Err? { return Err(packet.error); }
    var data := packet.value;
    if IsRowEof(data) {
      mc.status := FromLE(data[3..5]);
      rows.done := true;
      if !More(mc.status) {
        rows.mc := null;
      }
      return Err(EndOfRows);
    }
    if IsErr(data) {
      rows.mc := null;
      return Err(ErrorOf(data));
    }
    r := DecodeFields(data, rows.columns);
  }

  /** Next1: the proxy calls it until it reports the end of the rows. */
  method Next1(rows: TextRows, dst: Sink) returns (r: Result<seq<Field>, Error>)
    requires rows.mc != null ==> rows.mc.Valid()
    modifies ReprOf(rows.mc), dst, rows
    ensures var mc := old(rows.mc);
            && (mc == null ==> r == Err(EndOfRows) && rows.mc == null && dst.received == old(dst.received))
            && (mc != null ==>
                  && mc.Valid() && fresh(mc.Repr() - old(mc.Repr()))
                  // a closed connection never reports the end of the rows
                  && (old(mc.closed) ==> r.Err? && r.error != EndOfRows && rows.mc == mc && mc.closed
                                         && dst.received == old(dst.received))
                  && (!old(mc.closed) && old(rows.done) ==> r == Err(EndOfRows) && rows.mc == mc && rows.done))
    ensures var mc := old(rows.mc);
            mc != null && !old(mc.closed) && !old(rows.done) ==>
              && mc.canceled == old(mc.canceled)
              && (old(mc.Inbox()) == [] ==>
                    && r.Err? && r.error != EndOfRows && rows.mc == mc && !rows.done
                    && (mc.canceled.None? && (old(mc.Fate()).Lost? || old(mc.Fate()).Malformed?) ==> mc.closed))
              && (old(mc.Inbox()) != [] ==> mc.Fate() == old(mc.Fate()))
              && (old(mc.Inbox()) != [] ==>
                    var data := old(mc.Inbox())[0];
                    && mc.Inbox() == old(mc.Inbox())[1..] && mc.Leftover() == old(mc.Leftover())
                    && Flow(mc, dst) == old(Flow(mc, dst)) && !mc.closed && rows.columns == old(rows.columns)
                    && (IsRowEof(data) ==> r == Err(EndOfRows)
                                           && rows.mc == if More(FromLE(data[3..5])) then mc else null)
                    && (IsErr(data) ==> r.Err? && r.error == ErrorOf(data) && rows.mc == null)
                    && (!IsRowEof(data) && !IsErr(data) ==>
                          RowResult(ReadFields(data, 0, |rows.columns|), rows.columns, r)
                          && rows.mc == mc && !rows.done))
  {
    if rows.mc == null { return Err(EndOfRows); }
    var mc := rows.mc;
    var e := ConnError(mc);
    if e.Some? { return Err(e.value); }
    if rows.done { return Err(EndOfRows); }
    r := ReadRow1(rows, mc, dst);
  }

  // ---- The query ----

  /** Everything query1 reads: header, leading results without columns, column definitions.
      The value is None when there is nothing to hand on but the end of the rows. */
  function QuerySpec(v: View): Out<Option<seq<Column>>> {
    match HeaderSpec(v)
    case Broken => Broken
    case Stop(w, e) => Stop(w, e)
    case Done(w, n) =>
      if n < 0 then Stop(w, RuntimePanic)
      else if n > 0 then OpenSpec(w, n)
      else LaterSpec(w)
  }

  /** After a result without columns: the first later one that has columns. */
  function LaterSpec(v: View): Out<Option<seq<Column>>> {
    match NextNotEmptySpec(v)
    case Broken => Broken
    case Stop(x, e) => Stop(x, e)
    case Done(x, m) => if m <= 0 then Done(x, None) else OpenSpec(x, m)
  }

  function OpenSpec(v: View, n: nat): Out<Option<seq<Column>>> {
    match ColumnsSpec(v, 0, n)
    case Broken => Broken
    case Stop(w, e) => Stop(w, e)
    case Done(w, cs) => Done(w, Some(cs))
  }

  method OpenRows(rows: TextRows, mc: MysqlConn, n: nat, dst: Sink) returns (r: Result<TextRows, Error>)
    requires mc.Valid() && rows.mc == mc && !mc.closed
    modifies mc.Repr(), dst, rows
    ensures mc.Valid() && fresh(mc.Repr() - old(mc.Repr())) && rows.mc == mc && rows.done == old(rows.done)
    ensures match OpenSpec(old(ViewOf(mc)), n)
            case Done(v, cs) => r == Ok(rows) && cs == Some(rows.columns) && ViewOf(mc) == v
            case Stop(v, e) => r == Err(e) && ViewOf(mc) == v
            case Broken => r.Err?
    ensures !OpenSpec(old(ViewOf(mc)), n).Broken? ==> Flow(mc, dst) == old(Flow(mc, dst)) && !mc.closed
  {
    var columns := ReadColumns1(mc, n, dst);
    if columns.Err? { return Err(columns.error); }
    rows.columns := columns.value;
    r := Ok(rows);
  }

  ghost predicate Opened(out: Out<Option<seq<Column>>>, now: View, r: Result<TextRows, Error>, mc: MysqlConn)
    reads if r.Ok? then {r.value} else {}
  {
    match out
    case Done(v, cs) => r.Ok? && now == v
                        && (cs.None? ==> r.value.mc == null)
                        && (cs.Some? ==> r.value.mc == mc && !r.value.done && r.value.columns == cs.value)
    case Stop(v, e) => r == Err(e) && now == v
    case Broken => r.Err?
  }

  method OpenLater(rows: TextRows, mc: MysqlConn, dst: Sink) returns (r: Result<TextRows, Error>)
    requires mc.Valid() && rows.mc == mc && rows.done && !mc.closed
    modifies mc.Repr(), dst, rows
    ensures mc.Valid() && fresh(mc.Repr() - old(mc.Repr())) && (r.Ok? ==> r.value == rows)
    ensures Opened(LaterSpec(old(ViewOf(mc))), ViewOf(mc), r, mc)
    ensures !LaterSpec(old(ViewOf(mc))).Broken? ==> Flow(mc, dst) == old(Flow(mc, dst)) && !mc.closed
  {
    var resLen := NextNotEmptyResultSet1(rows, mc, dst);
    if resLen.Err? {
      return if resLen.error == EndOfRows then Ok(rows) else Err(resLen.error);
    }
    r := OpenRows(rows, mc, resLen.value, dst);
  }

  /** Query1, after the command has been written. */
  method ReadQueryReply(mc: MysqlConn, dst: Sink) returns (r: Result<TextRows, Error>)
    requires mc.Valid() && !mc.closed
    modifies mc.Repr(), dst
    ensures mc.Valid() && fresh(mc.Repr() - old(mc.Repr())) && (r.Ok? ==> fresh(r.value))
    ensures Opened(QuerySpec(old(ViewOf(mc))), ViewOf(mc), r, mc)
    ensures !QuerySpec(old(ViewOf(mc))).Broken? ==> Flow(mc, dst) == old(Flow(mc, dst)) && !mc.closed
  {
    hide HeaderSpec, OpenSpec, LaterSpec, ViewOf;
    var rows := new TextRows(mc);
    var resLen := ReadResultSetHeaderPacket(mc, dst);
    if resLen.Err? { return Err(resLen.error); }
    if resLen.value < 0 { return Err(RuntimePanic); }
    if resLen.value > 0 {
      r := OpenRows(rows, mc, resLen.value, dst);
    } else {
      rows.done := true;
      r := OpenLater(rows, mc, dst);
    }
  }

  // ---- What a replica answers ----

  datatype Ending = RowsEnd(warnings: nat, status: nat) | RowsErr(err: ErrFields)

  datatype Final =
    | FinalOk(ok: OkFields, info: seq<Byte>)
    | FinalErr(err: ErrFields)
    | FinalRows(columns: seq<seq<Byte>>, columnsWarnings: nat, columnsStatus: nat,
                rows: seq<seq<Field>>, end: Ending)

  /** Any number of OK packets that announce a further result, then the last result. */
  datatype Answer = Answer(oks: seq<(OkFields, seq<Byte>)>, final: Final)

  predicate GoodOk(f: OkFields) {
    f.affected < Pow256(8) && f.insertId < Pow256(8) && f.status < Pow256(2)
  }

  predicate GoodErr(e: ErrFields) {
    ErrFits(e) && Unambiguous(e)
  }

  /** How it is reported: number, state and message as they are. */
  function ErrorIn(e: ErrFields): Error {
    MySQLError(e.code, StateOf(e), e.message)
  }

  predicate GoodColumn(p: seq<Byte>) {
    ParseColumn(p).Ok? && p != [] && !IsColumnsEof(p)
  }

  ghost predicate GoodRow(row: seq<Field>, columns: nat) {
    |row| == columns && RowFits(row)
  }

  ghost predicate GoodEnding(e: Ending) {
    match e
    case RowsEnd(_, status) => status < Pow256(2) && !More(status)
    case RowsErr(err) => GoodErr(err)
  }

  ghost predicate GoodFinal(f: Final) {
    match f
    case FinalOk(ok, _) => GoodOk(ok) && !More(ok.status)
    case FinalErr(err) => GoodErr(err)
    case FinalRows(columns, _, columnsStatus, rows, end) =>
      && 0 < |columns| <= MAX_INT64 && |columns| < Pow256(8)
      && (forall i | 0 <= i < |columns| :: GoodColumn(columns[i]))
      && (forall i | 0 <= i < |rows| :: GoodRow(rows[i], |columns|))
      && columnsStatus < Pow256(2) && GoodEnding(end)
  }

  ghost predicate GoodAnswer(a: Answer) {
    && (forall i | 0 <= i < |a.oks| :: GoodOk(a.oks[i].0) && More(a.oks[i].0.status))
    && GoodFinal(a.final)
  }

  function EndingPacket(e: Ending): seq<Byte> {
    match e
    case RowsEnd(warnings, status) => EofPacket(warnings, status)
    case RowsErr(err) => ErrPacket(err)
  }

  ghost function RowPackets(rows: seq<seq<Field>>, columns: nat): (ps: seq<seq<Byte>>)
    requires forall i | 0 <= i < |rows| :: GoodRow(rows[i], columns)
  {
    if rows == [] then [] else
      assert GoodRow(rows[0], columns);
      [EncodeRow(rows[0])] + RowPackets(rows[1..], columns)
  }

  ghost function RowsTail(f: Final): seq<seq<Byte>>
    requires f.FinalRows? && GoodFinal(f)
  {
    RowPackets(f.rows, |f.columns|) + [EndingPacket(f.end)]
  }

  ghost function FinalPackets(f: Final): seq<seq<Byte>>
    requires GoodFinal(f)
  {
    match f
    case FinalOk(ok, info) => [OkPacket(ok, info)]
    case FinalErr(err) => [ErrPacket(err)]
    case FinalRows(columns, cw, cs, _, _) =>
      [EncodeInt(|columns|)] + (columns + ([EofPacket(cw, cs)] + RowsTail(f)))
  }

  ghost function AnswerPackets(a: Answer): seq<seq<Byte>>
    requires GoodAnswer(a)
    decreases |a.oks|
  {
    if a.oks == [] then FinalPackets(a.final)
    else [OkPacket(a.oks[0].0, a.oks[0].1)] + AnswerPackets(Answer(a.oks[1..], a.final))
  }

  // ---- How the query reads it ----

  function Parsed(p: seq<Byte>): Column {
    if ParseColumn(p).Ok? then ParseColumn(p).value else Column([], 0, 0, 0, 0, 0)
  }

  function ParsedAll(ps: seq<seq<Byte>>): (cs: seq<Column>)
    ensures |cs| == |ps|
  {
    if ps == [] then [] else [Parsed(ps[0])] + ParsedAll(ps[1..])
  }

  lemma {:induction false} ColumnsRead(columns: seq<seq<Byte>>, eof: seq<Byte>, tail: seq<seq<Byte>>, i: nat, v: View)
    requires forall k | 0 <= k < |columns| :: GoodColumn(columns[k])
    requires IsColumnsEof(eof) && v.ps == columns + ([eof] + tail)
    ensures ColumnsSpec(v, i, i + |columns|) == Done(v.(ps := tail), ParsedAll(columns))
    decreases |columns|
  {
    hide ParseColumn;
    if columns == [] {
      assert v.ps[0] == eof && v.ps[1..] == tail;
    } else {
      assert v.ps[0] == columns[0] && GoodColumn(columns[0]);
      var w := v.(ps := v.ps[1..]);
      assert w.ps == columns[1..] + ([eof] + tail);
      ColumnsRead(columns[1..], eof, tail, i + 1, w);
    }
  }

  /** Too few definitions in front of their EOF packet are reported as a mismatch. */
  lemma {:induction false} TooFewColumns(columns: seq<seq<Byte>>, eof: seq<Byte>, tail: seq<seq<Byte>>, i: nat,
      count: nat, v: View)
    requires forall k | 0 <= k < |columns| :: GoodColumn(columns[k])
    requires IsColumnsEof(eof) && v.ps == columns + ([eof] + tail) && i + |columns| < count
    ensures ColumnsSpec(v, i, count) == Stop(v.(ps := tail), ColumnMismatch)
    decreases |columns|
  {
    hide ParseColumn;
    if columns == [] {
      assert v.ps[0] == eof && v.ps[1..] == tail;
    } else {
      assert v.ps[0] == columns[0] && GoodColumn(columns[0]);
      var w := v.(ps := v.ps[1..]);
      assert w.ps == columns[1..] + ([eof] + tail);
      TooFewColumns(columns[1..], eof, tail, i + 1, count, w);
    }
  }

  /** What is left to read, and whether a row set was opened, once query1 has returned. */
  ghost predicate QueryLeaves(out: Out<Option<seq<Column>>>, f: Final, rest: seq<seq<Byte>>, v: View)
    requires GoodFinal(f)
  {
    match f
    case FinalOk(ok, _) => out.Done? && out.value == None && out.v.ps == rest && out.v.tail == v.tail
    case FinalErr(err) => out.Stop? && out.error == ErrorIn(err) && out.v.ps == rest && out.v.tail == v.tail
    case FinalRows(columns, _, _, _, _) =>
      out.Done? && out.value == Some(ParsedAll(columns)) && out.v.ps == RowsTail(f) + rest && out.v.tail == v.tail
  }

  lemma FinalHeaderRead(f: Final, rest: seq<seq<Byte>>, v: View)
    requires GoodFinal(f) && v.ps == FinalPackets(f) + rest
    ensures var h := HeaderSpec(v);
            match f
            case FinalOk(ok, _) => h.Done? && h.value == 0 && h.v.ps == rest && h.v.tail == v.tail && !More(h.v.status)
            case FinalErr(err) => h.Stop? && h.error == ErrorIn(err) && h.v.ps == rest && h.v.tail == v.tail
            case FinalRows(columns, cw, cs, _, _) =>
              h.Done? && h.value == |columns| && h.v.tail == v.tail
              && h.v.ps == columns + ([EofPacket(cw, cs)] + (RowsTail(f) + rest))
  {
    match f
    case FinalOk(ok, info) =>
      OkPacketParses(ok, info);
      assert v.ps[1..] == rest;
    case FinalErr(err) =>
      ErrorReportedIff(err);
      assert v.ps[0] == ErrPacket(err) && v.ps[1..] == rest;
    case FinalRows(columns, cw, cs, _, _) =>
      var body := columns + ([EofPacket(cw, cs)] + (RowsTail(f) + rest));
      Nest([EncodeInt(|columns|)], columns, [EofPacket(cw, cs)], RowsTail(f), rest);
      CountHeaderRead(|columns|, body, v);
  }

  lemma Nest<A>(a: seq<A>, b: seq<A>, c: seq<A>, d: seq<A>, e: seq<A>)
    ensures (a + (b + (c + d))) + e == a + (b + (c + (d + e)))
  {
  }

  lemma FinalRead(f: Final, rest: seq<seq<Byte>>, v: View)
    requires GoodFinal(f) && v.ps == FinalPackets(f) + rest
    ensures QueryLeaves(QuerySpec(v), f, rest, v)
    ensures More(v.status) ==> QueryLeaves(LaterSpec(v), f, rest, v)
  {
    hide HeaderSpec, ColumnsSpec, FinalPackets, RowsTail, ParsedAll, NextNotEmptySpec;
    FinalHeaderRead(f, rest, v);
    NextNotEmptyStep(v);
    var h := HeaderSpec(v);
    match f
    case FinalOk(_, _) => NextNotEmptyStep(h.v);
    case FinalErr(_) =>
    case FinalRows(columns, cw, cs, _, _) =>
      ColumnsRead(columns, EofPacket(cw, cs), RowsTail(f) + rest, 0, h.v);
  }

  /** Any number of leading OK packets does not change what the query leaves. */
  lemma {:induction false} LaterRead(a: Answer, rest: seq<seq<Byte>>, v: View)
    requires GoodAnswer(a) && More(v.status) && v.ps == AnswerPackets(a) + rest
    ensures QueryLeaves(LaterSpec(v), a.final, rest, v)
    decreases |a.oks|
  {
    if a.oks == [] {
      FinalRead(a.final, rest, v);
    } else {
      var w := OkSkipped(a, rest, v);
      NextNotEmptyStep(v);
      LaterRead(Answer(a.oks[1..], a.final), rest, w);
    }
  }

  lemma OkSkipped(a: Answer, rest: seq<seq<Byte>>, v: View) returns (w: View)
    requires GoodAnswer(a) && a.oks != [] && v.ps == AnswerPackets(a) + rest
    ensures GoodAnswer(Answer(a.oks[1..], a.final))
    ensures HeaderSpec(v) == Done(w, 0) && More(w.status) && w.tail == v.tail
    ensures w.ps == AnswerPackets(Answer(a.oks[1..], a.final)) + rest
  {
    var (ok, info) := a.oks[0];
    var more := AnswerPackets(Answer(a.oks[1..], a.final));
    Associate([OkPacket(ok, info)], more, rest);
    assert v.ps[0] == OkPacket(ok, info) && v.ps[1..] == more + rest;
    OkPacketParses(ok, info);
    w := HeaderSpec(v).v;
  }

  /** query1 consumes the answer up to the first row. */
  lemma QueryRead(a: Answer, rest: seq<seq<Byte>>, v: View)
    requires GoodAnswer(a) && v.ps == AnswerPackets(a) + rest
    ensures QueryLeaves(QuerySpec(v), a.final, rest, v)
  {
    if a.oks == [] {
      FinalRead(a.final, rest, v);
    } else {
      var w := OkSkipped(a, rest, v);
      LaterRead(Answer(a.oks[1..], a.final), rest, w);
    }
  }

  // ---- The whole drain ----

  /** Sends the query and, as WriteDataRow does, asks for rows until their end is reported.
      For every well-formed answer this terminates with the connection in step, its bytes all
      read and copied to the client in order. */
  method WriteDataRow(mc: MysqlConn, query: seq<Byte>, dst: Sink, ghost a: Answer, ghost rest: seq<seq<Byte>>)
      returns (err: Option<Error>, ghost written: bool)
    requires mc.Valid() && !mc.closed && GoodAnswer(a)
    requires Framing.Inbox(mc.buf.Queue(), Framing.After(1 + |query|, 0)) == AnswerPackets(a) + rest
    modifies mc.Repr(), dst
    ensures mc.Valid() && fresh(mc.Repr() - old(mc.Repr()))
    ensures mc.wire.reliable && old(mc.buf.length) == 0 && 1 + |query| <= old(mc.maxAllowedPacket) ==> written
    ensures !written ==> err.Some? && dst.received == old(dst.received)
    ensures written ==> err == if a.final.FinalErr?
                  then Some(MySQLError(a.final.err.code, StateOf(a.final.err), a.final.err.message)) else None
    ensures written ==>
              && Flow(mc, dst) == (old(dst.received + mc.buf.Queue()),
                                   old(mc.wire.sent) + Framing.Frames([0x03] + query, 0))
              && mc.Inbox() == rest && !mc.closed
              && mc.Leftover() == old(Framing.Leftover(mc.buf.Queue(), Framing.After(1 + |query|, 0)))
  {
    hide AnswerPackets, GoodFinal, Framing.Inbox, Framing.Leftover, Framing.Frames, Framing.After;
    mc.affectedRows, mc.insertIds := [], [];
    err := mc.WriteCommandPacketStr(COM_QUERY, query);
    written := err.None?;
    if err.Some? { return; }
    err := ReadAnswer(mc, dst, a, rest);
  }

  method ReadAnswer(mc: MysqlConn, dst: Sink, ghost a: Answer, ghost rest: seq<seq<Byte>>)
      returns (err: Option<Error>)
    requires mc.Valid() && !mc.closed && GoodAnswer(a) && mc.Inbox() == AnswerPackets(a) + rest
    modifies mc.Repr(), dst
    ensures mc.Valid() && fresh(mc.Repr() - old(mc.Repr()))
    ensures Flow(mc, dst) == old(Flow(mc, dst)) && mc.Inbox() == rest && !mc.closed
    ensures mc.Leftover() == old(mc.Leftover())
    ensures err == if a.final.FinalErr?
                  then Some(MySQLError(a.final.err.code, StateOf(a.final.err), a.final.err.message)) else None
  {
    hide QuerySpec, AnswerPackets, GoodFinal, MysqlConn.Inbox, MysqlConn.Leftover;
    QueryRead(a, rest, ViewOf(mc));
    var rows := ReadQueryReply(mc, dst);
    if rows.Err? { return Some(rows.error); }
    DrainRows(rows.value, mc, dst, a.final, rest);
    err := None;
  }

  /** When the replica has sent its answer and nothing else, the client receives exactly those
      bytes and no byte is left unread: the connection can take the next command. */
  method ForwardAnswer(mc: MysqlConn, query: seq<Byte>, dst: Sink, ghost a: Answer)
      returns (err: Option<Error>, ghost written: bool)
    requires mc.Valid() && !mc.closed && GoodAnswer(a)
    requires mc.buf.Queue() == Framing.Stream(AnswerPackets(a), Framing.After(1 + |query|, 0))
    modifies mc.Repr(), dst
    ensures mc.Valid() && fresh(mc.Repr() - old(mc.Repr()))
    ensures written ==> dst.received == old(dst.received)
                                        + Framing.Stream(AnswerPackets(a), Framing.After(1 + |query|, 0))
    ensures written ==> mc.buf.Queue() == [] && mc.buf.length == 0 && !mc.closed
    ensures written ==> err == if a.final.FinalErr?
                  then Some(MySQLError(a.final.err.code, StateOf(a.final.err), a.final.err.message)) else None
    ensures mc.wire.reliable && old(mc.buf.length) == 0 && 1 + |query| <= old(mc.maxAllowedPacket) ==> written
    ensures !written ==> err.Some? && dst.received == old(dst.received)
  {
    ExactAnswer(a, Framing.After(1 + |query|, 0));
    err, written := WriteDataRow(mc, query, dst, a, []);
    if written {
      NothingLeft(mc.buf.Queue(), mc.sequence);
    }
  }

  lemma NothingLeft(q: seq<Byte>, s: Byte)
    requires Framing.Inbox(q, s) == [] && Framing.Leftover(q, s) == []
    ensures q == []
  {
  }

  lemma ExactAnswer(a: Answer, s: Byte)
    requires GoodAnswer(a)
    ensures var q := Framing.Stream(AnswerPackets(a), s);
            Framing.Inbox(q, s) == AnswerPackets(a) + [] && Framing.Leftover(q, s) == []
  {
    var ps := AnswerPackets(a);
    AnswerNonempty(a);
    Framing.InboxOfStream(ps, s, []);
    assert Framing.Stream(ps, s) + [] == Framing.Stream(ps, s);
  }

  lemma {:induction false} RowsNonempty(rows: seq<seq<Field>>, columns: nat)
    requires columns > 0 && forall i | 0 <= i < |rows| :: GoodRow(rows[i], columns)
    ensures Framing.Nonempty(RowPackets(rows, columns))
    decreases |rows|
  {
    if rows != [] {
      assert GoodRow(rows[0], columns);
      RowIsNeverEofOrErr(rows[0]);
      RowsNonempty(rows[1..], columns);
    }
  }

  lemma ColumnsNonempty(columns: seq<seq<Byte>>)
    requires forall i | 0 <= i < |columns| :: GoodColumn(columns[i])
    ensures Framing.Nonempty(columns)
  {
    assert forall i | 0 <= i < |columns| :: GoodColumn(columns[i]) && columns[i] != [];
  }

  lemma OneNonempty(p: seq<Byte>)
    requires p != []
    ensures Framing.Nonempty([p])
  {
  }

  lemma NonemptyParts(a: seq<seq<Byte>>, b: seq<seq<Byte>>, c: seq<seq<Byte>>, d: seq<seq<Byte>>, e: seq<seq<Byte>>)
    requires |a| == |c| == |e| == 1 && a[0] != [] && c[0] != [] && e[0] != []
    requires Framing.Nonempty(b) && Framing.Nonempty(d)
    ensures Framing.Nonempty(a + (b + (c + (d + e))))
  {
  }

  lemma FinalNonempty(f: Final)
    requires GoodFinal(f)
    ensures Framing.Nonempty(FinalPackets(f))
  {
    hide RowPackets, GoodRow, ParseColumn, Framing.Nonempty;
    if f.FinalRows? {
      RowsNonempty(f.rows, |f.columns|);
      ColumnsNonempty(f.columns);
      var end := [EndingPacket(f.end)];
      NonemptyParts([EncodeInt(|f.columns|)], f.columns, [EofPacket(f.columnsWarnings, f.columnsStatus)],
                    RowPackets(f.rows, |f.columns|), end);
    } else {
      OneNonempty(FinalPackets(f)[0]);
    }
  }

  lemma {:induction false} AnswerNonempty(a: Answer)
    requires GoodAnswer(a)
    ensures Framing.Nonempty(AnswerPackets(a))
    decreases |a.oks|
  {
    hide FinalPackets, GoodFinal;
    if a.oks != [] {
      var more := Answer(a.oks[1..], a.final);
      assert GoodAnswer(more);
      AnswerNonempty(more);
    } else {
      FinalNonempty(a.final);
    }
  }

  /** The loop that stops only at the end of the rows. */
  method DrainRows(rows: TextRows, mc: MysqlConn, dst: Sink, ghost f: Final, ghost rest: seq<seq<Byte>>)
    requires mc.Valid() && !mc.closed && GoodFinal(f)
    requires rows.mc == null ==> mc.Inbox() == rest
    requires rows.mc != null ==> && rows.mc == mc && !rows.done && f.FinalRows? && |rows.columns| == |f.columns|
                                 && mc.Inbox() == RowsTail(f) + rest
    modifies mc.Repr(), dst, rows
    ensures mc.Valid() && fresh(mc.Repr() - old(mc.Repr()))
    ensures Flow(mc, dst) == old(Flow(mc, dst)) && mc.Inbox() == rest && !mc.closed
    ensures mc.Leftover() == old(mc.Leftover())
  {
    hide ReadFields, RowPackets, EndingPacket, IsRowEof, IsErr, Framing.Inbox, Framing.Leftover, Framing.Fate;
    hide MysqlConn.Valid, MysqlConn.Fate, MysqlConn.Leftover;
    ghost var left: seq<seq<Field>> := if f.FinalRows? then f.rows else [];
    while true
      invariant mc.Valid() && fresh(mc.Repr() - old(mc.Repr())) && !mc.closed
      invariant Flow(mc, dst) == old(Flow(mc, dst)) && mc.Leftover() == old(mc.Leftover())
      invariant rows.mc == null ==> mc.Inbox() == rest
      invariant rows.mc != null ==> && rows.mc == mc && !rows.done && f.FinalRows? && |rows.columns| == |f.columns|
                                    && (forall i | 0 <= i < |left| :: GoodRow(left[i], |f.columns|))
                                    && mc.Inbox() == RowPackets(left, |f.columns|) + [EndingPacket(f.end)] + rest
      decreases |mc.Inbox()|
    {
      if rows.mc != null {
        NextRow(left, f, rest);
        if left != [] { left := left[1..]; }
      }
      var r := Next1(rows, dst);
      if r == Err(EndOfRows) { return; }
    }
  }

  lemma NextRow(left: seq<seq<Field>>, f: Final, rest: seq<seq<Byte>>)
    requires f.FinalRows? && GoodFinal(f) && forall i | 0 <= i < |left| :: GoodRow(left[i], |f.columns|)
    ensures var ps := RowPackets(left, |f.columns|) + [EndingPacket(f.end)] + rest;
            && ps != []
            && (left == [] && f.end.RowsErr? ==> ErrorOf(ps[0]) == ErrorIn(f.end.err))
            && (left == [] ==> ps[0] == EndingPacket(f.end) && ps[1..] == rest
                               && (IsErr(ps[0]) || (IsRowEof(ps[0]) && !More(FromLE(ps[0][3..5])))))
            && (left != [] ==> ps[1..] == RowPackets(left[1..], |f.columns|) + [EndingPacket(f.end)] + rest
                               && !IsRowEof(ps[0]) && !IsErr(ps[0])
                               && ReadFields(ps[0], 0, |f.columns|) == Row(left[0]))
  {
    hide ErrorOf, ErrPacket, ErrFits, EofPacket, ReadFields, EncodeRow, LE, FromLE;
    var end := [EndingPacket(f.end)];
    if left == [] {
      EmptyLeft(end);
      assert (end + rest)[1..] == rest;
      if f.end.RowsEnd? { EofPacketStatus(f.end.warnings, f.end.status); } else { ErrorReportedIff(f.end.err); }
    } else {
      assert GoodRow(left[0], |f.columns|);
      RowDecodes(left[0]);
      SplitFirst(EncodeRow(left[0]), RowPackets(left[1..], |f.columns|), end, rest);
    }
  }

  lemma SplitFirst<A>(x: A, a: seq<A>, b: seq<A>, c: seq<A>)
    ensures var all := [x] + a + b + c;
            all[0] == x && all[1..] == a + b + c
  {
  }

  lemma RowDecodes(row: seq<Field>)
    requires RowFits(row) && row != []
    ensures var p := EncodeRow(row);
            p != [] && !IsRowEof(p) && !IsErr(p) && ReadFields(p, 0, |row|) == Row(row)
  {
    RowIsNeverEofOrErr(row);
    EmptyLeft(EncodeRow(row));
    ReadFieldsInvertsEncodeRow([], row);
  }

  // ---- Column definitions as a server writes them ----

  /** The names in front of a column's own name. */
  datatype Origin = Origin(catalog: seq<Byte>, database: seq<Byte>, table: seq<Byte>, orgTable: seq<Byte>)

  ghost predicate NamesFit(o: Origin, c: Column, orgName: seq<Byte>) {
    && Fits(o.catalog) && Fits(o.database) && Fits(o.table) && Fits(o.orgTable)
    && Fits(c.name) && Fits(orgName)
  }

  ghost function EncodeColumn(o: Origin, c: Column, orgName: seq<Byte>): seq<Byte>
    requires NamesFit(o, c, orgName)
  {
    EncodeString(o.catalog) + (EncodeString(o.database) + (EncodeString(o.table) + (EncodeString(o.orgTable)
      + (EncodeString(c.name) + (EncodeString(orgName) + FixedPart(c))))))
  }

  /** Length of the fixed part, charset, length, type, flags, decimals, filler. */
  function FixedPart(c: Column): (p: seq<Byte>)
    ensures |p| == 13
  {
    [0x0c, c.charSet, 0] + LE(c.length, 4) + [c.fieldType] + LE(c.flags, 2) + [c.decimals, 0, 0]
  }

  lemma FixedPartRead(c: Column, q: seq<Byte>, pos: nat)
    requires c.length < Pow256(4) && c.flags < Pow256(2)
    requires pos <= |q| && q[pos..] == FixedPart(c)
    ensures pos + 11 <= |q| && q[pos + 1] == c.charSet && q[pos + 7] == c.fieldType && q[pos + 10] == c.decimals
    ensures FromLE(q[pos + 3..pos + 7]) == c.length && FromLE(q[pos + 8..pos + 10]) == c.flags
  {
    var f := FixedPart(c);
    assert f[3..7] == LE(c.length, 4) && f[8..10] == LE(c.flags, 2);
    assert q[pos + 3..pos + 7] == q[pos..][3..7] && q[pos + 8..pos + 10] == q[pos..][8..10];
    assert q[pos + 1] == q[pos..][1] && q[pos + 7] == q[pos..][7] && q[pos + 10] == q[pos..][10];
    FromLEInvertsLE(c.length, 4);
    FromLEInvertsLE(c.flags, 2);
  }

  lemma SkipStep(data: seq<Byte>, pos: nat, s: seq<Byte>, more: seq<Byte>, k: nat)
    requires Fits(s) && k > 0 && pos <= |data| && data[pos..] == EncodeString(s) + more
    ensures Skip(data, pos, k) == Skip(data, pos + |EncodeString(s)|, k - 1)
    ensures pos + |EncodeString(s)| <= |data| && data[pos + |EncodeString(s)|..] == more
  {
    ReadStringInvertsEncodeString(s, more);
    assert data[pos + |EncodeString(s)|..] == data[pos..][|EncodeString(s)|..];
  }

  lemma SkipNone(data: seq<Byte>, pos: nat)
    ensures Skip(data, pos, 0) == Ok(pos)
  {
  }

  lemma SkipOrigin(p: seq<Byte>, a: seq<Byte>, b: seq<Byte>, c: seq<Byte>, d: seq<Byte>, more: seq<Byte>)
    requires Fits(a) && Fits(b) && Fits(c) && Fits(d)
    requires p == EncodeString(a) + (EncodeString(b) + (EncodeString(c) + (EncodeString(d) + more)))
    ensures var pos := |EncodeString(a)| + |EncodeString(b)| + |EncodeString(c)| + |EncodeString(d)|;
            pos <= |p| && Skip(p, 0, 4) == Ok(pos) && p[pos..] == more
  {
    hide Skip, ReadString, EncodeString;
    var p1 := |EncodeString(a)|;
    var p2 := p1 + |EncodeString(b)|;
    var p3 := p2 + |EncodeString(c)|;
    assert p[0..] == p;
    SkipStep(p, 0, a, EncodeString(b) + (EncodeString(c) + (EncodeString(d) + more)), 4);
    SkipStep(p, p1, b, EncodeString(c) + (EncodeString(d) + more), 3);
    SkipStep(p, p2, c, EncodeString(d) + more, 2);
    SkipStep(p, p3, d, more, 1);
    SkipNone(p, p3 + |EncodeString(d)|);
  }

  lemma NameAndRest(p: seq<Byte>, pos: nat, c: Column, orgName: seq<Byte>)
    requires Fits(c.name) && Fits(orgName) && pos <= |p|
    requires p[pos..] == EncodeString(c.name) + (EncodeString(orgName) + FixedPart(c))
    ensures ReadString(p[pos..]) == Str(c.name, false, |EncodeString(c.name)|)
    ensures var q := pos + |EncodeString(c.name)| + |EncodeString(orgName)|;
            Skip(p, pos + |EncodeString(c.name)|, 1) == Ok(q) && q <= |p| && p[q..] == FixedPart(c)
  {
    hide Skip, ReadString, EncodeString, FixedPart;
    var e := EncodeString(c.name);
    var more := EncodeString(orgName) + FixedPart(c);
    ReadStringInvertsEncodeString(c.name, more);
    assert p[pos + |e|..] == p[pos..][|e|..] == more;
    SkipStep(p, pos + |e|, orgName, FixedPart(c), 1);
    SkipNone(p, pos + |e| + |EncodeString(orgName)|);
  }

  /** Parsing inverts encoding, and no column definition is taken for the end of the columns. */
  lemma ColumnParses(o: Origin, c: Column, orgName: seq<Byte>)
    requires NamesFit(o, c, orgName) && c.length < Pow256(4) && c.flags < Pow256(2)
    ensures ParseColumn(EncodeColumn(o, c, orgName)) == Ok(c)
    ensures GoodColumn(EncodeColumn(o, c, orgName))
  {
    hide Skip, ReadString, EncodeString, FixedPart;
    var p := EncodeColumn(o, c, orgName);
    SkipOrigin(p, o.catalog, o.database, o.table, o.orgTable,
               EncodeString(c.name) + (EncodeString(orgName) + FixedPart(c)));
    var pos := Skip(p, 0, 4).value;
    NameAndRest(p, pos, c, orgName);
    FixedPartRead(c, p, pos + |EncodeString(c.name)| + |EncodeString(orgName)|);
  }

  // ---- ColumnsWithAlias ----

  /** With the option on, the table name is read where it is skipped otherwise: the name and
      the place behind it. */
  function ReadTable(data: seq<Byte>): Result<(seq<Byte>, nat), Error> {
    match Skip(data, 0, 2)
    case Err(e) => Err(e)
    case Ok(pos) =>
      if pos > |data| then Err(RuntimePanic)
      else match ReadString(data[pos..])
        case Panic => Err(RuntimePanic)
        case Short => Err(EndOfRows)
        case Str(table, _, n) => Ok((table, pos + n))
  }

  /** Reading it fails when skipping would, and goes on at the same place, so the option changes
      nothing else in a column. */
  lemma AliasChangesNothingElse(data: seq<Byte>)
    ensures Skip(data, 0, 3) == match ReadTable(data) case Err(e) => Err(e) case Ok((_, pos)) => Ok(pos)
  {
    hide ReadString, SkipString;
    SkipMore(data, 0, 2);
    var at := Skip(data, 0, 2);
    if at.Ok? && at.value <= |data| {
      assert Skip(data, at.value, 1) == match SkipString(data[at.value..])
                                        case Panic => Err(RuntimePanic)
                                        case Short => Err(EndOfRows)
                                        case Str(_, _, n) => Skip(data, at.value + n, 0);
    }
  }

  lemma {:induction false} SkipMore(data: seq<Byte>, pos: nat, k: nat)
    ensures Skip(data, pos, k + 1)
         == match Skip(data, pos, k) case Err(e) => Err(e) case Ok(p) => Skip(data, p, 1)
    decreases k
  {
    hide SkipString;
    if k > 0 && pos <= |data| {
      var s := SkipString(data[pos..]);
      if s.Str? { SkipMore(data, pos + s.n, k - 1); }
    }
  }

  lemma TableIsRead(o: Origin, c: Column, orgName: seq<Byte>)
    requires NamesFit(o, c, orgName)
    ensures ReadTable(EncodeColumn(o, c, orgName))
         == Ok((o.table, |EncodeString(o.catalog)| + |EncodeString(o.database)| + |EncodeString(o.table)|))
  {
    hide Skip, ReadString, EncodeString, FixedPart;
    var p := EncodeColumn(o, c, orgName);
    var more := EncodeString(o.orgTable) + (EncodeString(c.name) + (EncodeString(orgName) + FixedPart(c)));
    var p1 := |EncodeString(o.catalog)|;
    assert p[0..] == p;
    SkipStep(p, 0, o.catalog, EncodeString(o.database) + (EncodeString(o.table) + more), 2);
    SkipStep(p, p1, o.database, EncodeString(o.table) + more, 1);
    SkipNone(p, p1 + |EncodeString(o.database)|);
    ReadStringInvertsEncodeString(o.table, more);
  }
}
