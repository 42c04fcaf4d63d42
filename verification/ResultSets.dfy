/** Result headers, OK and ERR packets, draining to EOF, and chains of results: the methods
    of the connection, each against a function of the packets still in the inbox. */
module ResultSets {
  import opened Bytes
  import opened Buffers
  import opened LengthEncoding
  import opened Connections
  import Framing

  const MAX_INT64: int := 0x7fff_ffff_ffff_ffff
  const MORE_RESULTS_BIT: nat := 3   // statusMoreResultsExists == 1 << 3

  /** int64(u) for an unsigned 64-bit u. */
  function Int64(u: nat): int {
    if u <= MAX_INT64 then u else u - 0x1_0000_0000_0000_0000
  }

  predicate More(status: nat) {
    Bit(status, MORE_RESULTS_BIT)
  }

  /** What reading results depends on and changes. */
  datatype View = View(ps: seq<seq<Byte>>, tail: seq<Byte>, status: nat, affected: seq<int>, ids: seq<int>)

  /** Done and Stop leave the connection in step; Broken is a failure to read a packet. */
  datatype Out<T> = Done(v: View, value: T) | Stop(v: View, error: Error) | Broken

  ghost function ViewOf(mc: MysqlConn): View
    requires mc.Valid()
    reads mc, mc.buf, mc.buf.buf, mc.wire
  {
    View(mc.Inbox(), mc.Leftover(), mc.status, mc.affectedRows, mc.insertIds)
  }

  /** What copying to the client keeps: the bytes the client has followed by those still to be
      read, and the bytes sent to the server. */
  ghost function Flow(mc: MysqlConn, dst: Sink): (seq<Byte>, seq<Byte>)
    requires mc.Valid()
    reads mc, mc.buf, mc.buf.buf, mc.wire, dst
  {
    (dst.received + mc.buf.Queue(), mc.wire.sent)
  }

  ghost predicate Agrees<T>(out: Out<T>, now: View, r: Result<T, Error>) {
    match out
    case Done(v, value) => r == Ok(value) && now == v
    case Stop(v, error) => r == Err(error) && now == v
    case Broken => r.Err?
  }

  /** The next packet of the inbox, and on success nothing else changes. */
  method NextPacket(mc: MysqlConn, dst: Sink?) returns (r: Result<seq<Byte>, Error>)
    requires mc.Valid()
    modifies mc.Repr(), dst
    ensures mc.Valid() && fresh(mc.Repr() - old(mc.Repr()))
    ensures r.Ok? <==> old(mc.Inbox()) != []
    ensures r.Err? ==> r.error != EndOfRows
    ensures r.Ok? ==> r.value != [] && r.value == old(mc.Inbox())[0] && mc.Inbox() == old(mc.Inbox())[1..]
                      && mc.State() == old(mc.State()) && mc.Leftover() == old(mc.Leftover())
                      && mc.Fate() == old(mc.Fate())
    ensures r.Err? && mc.canceled.None? && (old(mc.Fate()).Lost? || old(mc.Fate()).Malformed?) ==> mc.closed
    ensures dst != null && r.Ok? ==> Flow(mc, dst) == old(Flow(mc, dst))
    ensures mc.canceled == old(mc.canceled) && old(mc.wire.sent) <= mc.wire.sent
  {
    r := mc.ReadPacket(dst);
  }

  // ---- Single packets ----

  datatype OkFields = OkFields(affected: nat, insertId: nat, status: nat)

  /** Both counts and the place behind them; None: an index or slice bound past the packet. */
  function ParseCounts(data: seq<Byte>): Option<(nat, nat, nat)> {
    if data == [] then None
    else match ReadInt(data[1..])
      case None => None
      case Some(a) =>
        if 1 + a.n > |data| then None
        else match ReadInt(data[1 + a.n..])
          case None => None
          case Some(b) => Some((a.num, b.num, 1 + a.n + b.n))
  }

  function ParseOk(data: seq<Byte>): Option<OkFields> {
    match ParseCounts(data)
    case None => None
    case Some((affected, insertId, pos)) =>
      if pos + 2 > |data| then None else Some(OkFields(affected, insertId, FromLE(data[pos..pos + 2])))
  }

  function SetLast(s: seq<int>, x: int): (r: seq<int>)
    ensures |r| == |s|
  {
    if s == [] then s else s[|s| - 1 := x]
  }

  /** The lists are written before the status is read, and so also when that is cut off. */
  function OkSpec(v: View, data: seq<Byte>): Out<int> {
    match ParseCounts(data)
    case None => Stop(v, RuntimePanic)
    case Some((affected, insertId, pos)) =>
      var w := v.(affected := SetLast(v.affected, Int64(affected)), ids := SetLast(v.ids, Int64(insertId)));
      if pos + 2 > |data| then Stop(w, RuntimePanic) else Done(w.(status := FromLE(data[pos..pos + 2])), 0)
  }

  /** On a packet that is whole, the view is that of its fields. */
  lemma OkSpecOfFields(v: View, data: seq<Byte>)
    requires ParseOk(data).Some?
    ensures var f := ParseOk(data).value;
            OkSpec(v, data) == Done(View(v.ps, v.tail, f.status, SetLast(v.affected, Int64(f.affected)),
                                         SetLast(v.ids, Int64(f.insertId))), 0)
  {
  }

  /** Writes both counts over the last entries of the lists. */
  method UpdateCurrent(mc: MysqlConn, affected: nat, insertId: nat)
    requires mc.Valid()
    modifies mc`affectedRows, mc`insertIds
    ensures ViewOf(mc) == old(ViewOf(mc)).(affected := SetLast(old(mc.affectedRows), Int64(affected)),
                                           ids := SetLast(old(mc.insertIds), Int64(insertId)))
  {
    hide Framing.Inbox, Framing.Leftover, Buffer.Queue, Int64;
    if |mc.affectedRows| > 0 {
      mc.affectedRows := mc.affectedRows[|mc.affectedRows| - 1 := Int64(affected)];
    }
    if |mc.insertIds| > 0 {
      mc.insertIds := mc.insertIds[|mc.insertIds| - 1 := Int64(insertId)];
    }
  }

  method ReadCounts(data: seq<Byte>) returns (r: Option<(nat, nat, nat)>)
    ensures r == ParseCounts(data)
  {
    hide ReadInt;
    if data == [] { return None; }
    var affectedRows := ReadInt(data[1..]);
    if affectedRows.None? || 1 + affectedRows.value.n > |data| { return None; }
    var n := affectedRows.value.n;
    var insertId := ReadInt(data[1 + n..]);
    if insertId.None? { return None; }
    r := Some((affectedRows.value.num, insertId.value.num, 1 + n + insertId.value.n));
  }

  method HandleOkPacket(mc: MysqlConn, data: seq<Byte>) returns (r: Result<int, Error>)
    requires mc.Valid()
    modifies mc`status, mc`affectedRows, mc`insertIds
    ensures Agrees(OkSpec(old(ViewOf(mc)), data), ViewOf(mc), r)
    ensures r.Err? ==> r.error == RuntimePanic
  {
    hide ParseCounts, SetLast, Int64, Framing.Inbox, Framing.Leftover, Buffer.Queue;
    var counts := ReadCounts(data);
    if counts.None? { return Err(RuntimePanic); }
    UpdateCurrent(mc, counts.value.0, counts.value.1);
    var pos := counts.value.2;
    if pos + 2 > |data| { return Err(RuntimePanic); }
    mc.status := FromLE(data[pos..pos + 2]);
    r := Ok(0);
  }

  /** The state of an error that came without one. */
  const NO_STATE: seq<Byte> := [0, 0, 0, 0, 0]

  function ErrorOf(data: seq<Byte>): Error {
    if data == [] then RuntimePanic
    else if data[0] != IERR then MalformPkt
    else if |data| < 4 then RuntimePanic
    else if data[3] != 0x23 then MySQLError(FromLE(data[1..3]), NO_STATE, data[3..])
    else if |data| < 9 then RuntimePanic
    else MySQLError(FromLE(data[1..3]), data[4..9], data[9..])
  }

  // ---- Result header ----

  /** What a header packet means, once it is out of the inbox. */
  function HeaderOf(w: View, data: seq<Byte>): (out: Out<int>)
    requires data != []
    ensures !out.Broken? && (out.Done? ==> out.v.ps == w.ps)
  {
    if data[0] == IOK then OkSpec(w, data)
    else if data[0] == IERR then Stop(w, ErrorOf(data))
    else if data[0] == ILocalInFile then Stop(w, LocalInFile)
    else match ReadInt(data)
      case None => Stop(w, RuntimePanic)
      case Some(i) => if i.n == |data| then Done(w, Int64(i.num)) else Stop(w, MalformPkt)
  }

  method DecodeHeader(mc: MysqlConn, data: seq<Byte>) returns (r: Result<int, Error>)
    requires mc.Valid() && data != []
    modifies mc`status, mc`affectedRows, mc`insertIds
    ensures Agrees(HeaderOf(old(ViewOf(mc)), data), ViewOf(mc), r)
    ensures r.Err? ==> r.error != EndOfRows
  {
    if data[0] == IOK {
      r := HandleOkPacket(mc, data);
    } else if data[0] == IERR {
      r := Err(ErrorOf(data));
    } else if data[0] == ILocalInFile {
      r := Err(LocalInFile);
    } else {
      var num := ReadInt(data);
      if num.None? { return Err(RuntimePanic); }
      r := if num.value.n == |data| then Ok(Int64(num.value.num)) else Err(MalformPkt);
    }
  }

  /** One entry is added to each list; only an OK packet changes it from 0. */
  function HeaderSpec(v: View): (out: Out<int>)
    ensures out.Done? ==> |out.v.ps| < |v.ps|
  {
    if v.ps == [] || v.ps[0] == [] then Broken
    else HeaderOf(View(v.ps[1..], v.tail, v.status, v.affected + [0], v.ids + [0]), v.ps[0])
  }

  method ReadResultSetHeaderPacket(mc: MysqlConn, dst: Sink?) returns (r: Result<int, Error>)
    requires mc.Valid()
    modifies mc.Repr(), dst
    ensures mc.Valid() && fresh(mc.Repr() - old(mc.Repr()))
    ensures Agrees(HeaderSpec(old(ViewOf(mc))), ViewOf(mc), r)
    ensures r.Err? ==> r.error != EndOfRows
    ensures !HeaderSpec(old(ViewOf(mc))).Broken? ==>
              (dst != null ==> Flow(mc, dst) == old(Flow(mc, dst))) && mc.closed == old(mc.closed)
    ensures mc.canceled == old(mc.canceled) && old(mc.wire.sent) <= mc.wire.sent
  {
    hide HeaderOf, Framing.Inbox, Framing.Leftover, Buffer.Queue;
    mc.affectedRows := mc.affectedRows + [0];
    mc.insertIds := mc.insertIds + [0];
    var packet := NextPacket(mc, dst);
    if packet.Err? { return Err(packet.error); }
    r := DecodeHeader(mc, packet.value);
  }

  // ---- Draining ----

  function UntilEofSpec(v: View): (out: Out<int>)
    ensures out.Done? ==> |out.v.ps| < |v.ps|
    decreases |v.ps|
  {
    if v.ps == [] then Broken
    else
      var data, w := v.ps[0], v.(ps := v.ps[1..]);
      if data == [] then Broken
      else if data[0] == IERR then Stop(w, ErrorOf(data))
      else if data[0] == IEOF then Done(if |data| == 5 then w.(status := FromLE(data[3..5])) else w, 0)
      else UntilEofSpec(w)
  }

  /** One turn of the drain: one packet, and whether it ends the drain. */
  method DrainOne(mc: MysqlConn, dst: Sink?) returns (more: bool, r: Result<int, Error>)
    requires mc.Valid()
    modifies mc.Repr(), dst
    ensures mc.Valid() && fresh(mc.Repr() - old(mc.Repr()))
    ensures more ==> UntilEofSpec(ViewOf(mc)) == UntilEofSpec(old(ViewOf(mc)))
                     && |mc.Inbox()| < |old(mc.Inbox())|
    ensures !more ==> Agrees(UntilEofSpec(old(ViewOf(mc))), ViewOf(mc), r)
    ensures more || !UntilEofSpec(old(ViewOf(mc))).Broken? ==>
              (dst != null ==> Flow(mc, dst) == old(Flow(mc, dst))) && mc.closed == old(mc.closed)
    ensures mc.canceled == old(mc.canceled) && old(mc.wire.sent) <= mc.wire.sent
  {
    var packet := NextPacket(mc, dst);
    if packet.Err? { return false, Err(packet.error); }
    var data := packet.value;
    if data[0] == IERR {
      return false, Err(ErrorOf(data));
    }
    if data[0] == IEOF {
      if |data| == 5 {
        mc.status := FromLE(data[3..5]);
      }
      return false, Ok(0);
    }
    return true, Ok(0);
  }

  method ReadUntilEOF(mc: MysqlConn, dst: Sink?) returns (r: Result<int, Error>)
    requires mc.Valid()
    modifies mc.Repr(), dst
    ensures mc.Valid() && fresh(mc.Repr() - old(mc.Repr()))
    ensures Agrees(UntilEofSpec(old(ViewOf(mc))), ViewOf(mc), r)
    ensures !UntilEofSpec(old(ViewOf(mc))).Broken? ==>
              (dst != null ==> Flow(mc, dst) == old(Flow(mc, dst))) && mc.closed == old(mc.closed)
    ensures mc.canceled == old(mc.canceled) && old(mc.wire.sent) <= mc.wire.sent
  {
    var more := true;
    r := Ok(0);
    while more
      invariant mc.Valid() && fresh(mc.Repr() - old(mc.Repr()))
      invariant more ==> UntilEofSpec(ViewOf(mc)) == UntilEofSpec(old(ViewOf(mc)))
      invariant !more ==> Agrees(UntilEofSpec(old(ViewOf(mc))), ViewOf(mc), r)
      invariant more || !UntilEofSpec(old(ViewOf(mc))).Broken? ==>
                  (dst != null ==> Flow(mc, dst) == old(Flow(mc, dst))) && mc.closed == old(mc.closed)
      invariant mc.canceled == old(mc.canceled) && old(mc.wire.sent) <= mc.wire.sent
      decreases if more then |mc.Inbox()| + 1 else 0
    {
      more, r := DrainOne(mc, dst);
    }
  }

  /** The rest of one result after its header: columns and rows, if it has any. */
  function BodySpec(v: View, resLen: int): (out: Out<int>)
    ensures out.Done? ==> |out.v.ps| <= |v.ps|
  {
    if resLen <= 0 then Done(v, 0)
    else match UntilEofSpec(v)
      case Done(w, _) => UntilEofSpec(w)
      case other => other
  }

  /** One result: its header, then its body. */
  function ReplySpec(v: View): (out: Out<int>)
    ensures out.Done? ==> |out.v.ps| < |v.ps|
  {
    match HeaderSpec(v)
    case Done(w, resLen) => BodySpec(w, resLen)
    case other => other
  }

  /** Results as long as the status announces another. */
  function DiscardSpec(v: View): Out<int>
    decreases |v.ps|
  {
    if !More(v.status) then Done(v, 0)
    else match ReplySpec(v)
      case Done(x, _) => DiscardSpec(x)
      case other => other
  }

  method ReadBody(mc: MysqlConn, resLen: int) returns (r: Result<int, Error>)
    requires mc.Valid()
    modifies mc.Repr()
    ensures mc.Valid() && fresh(mc.Repr() - old(mc.Repr()))
    ensures Agrees(BodySpec(old(ViewOf(mc)), resLen), ViewOf(mc), r)
    ensures old(mc.wire.sent) <= mc.wire.sent
  {
    r := Ok(0);
    if resLen > 0 {
      r := ReadUntilEOF(mc, null);   // columns
      if r.Err? { return; }
      r := ReadUntilEOF(mc, null);   // rows
    }
  }

  method ReadReply(mc: MysqlConn) returns (r: Result<int, Error>)
    requires mc.Valid()
    modifies mc.Repr()
    ensures mc.Valid() && fresh(mc.Repr() - old(mc.Repr()))
    ensures Agrees(ReplySpec(old(ViewOf(mc))), ViewOf(mc), r)
    ensures old(mc.wire.sent) <= mc.wire.sent
  {
    r := ReadResultSetHeaderPacket(mc, null);
    if r.Err? { return; }
    r := ReadBody(mc, r.value);
  }

  method DiscardResults(mc: MysqlConn) returns (r: Result<int, Error>)
    requires mc.Valid()
    modifies mc.Repr()
    ensures mc.Valid() && fresh(mc.Repr() - old(mc.Repr()))
    ensures Agrees(DiscardSpec(old(ViewOf(mc))), ViewOf(mc), r)
    ensures old(mc.wire.sent) <= mc.wire.sent
  {
    r := Ok(0);
    while More(mc.status)
      invariant mc.Valid() && fresh(mc.Repr() - old(mc.Repr())) && r == Ok(0)
      invariant DiscardSpec(ViewOf(mc)) == DiscardSpec(old(ViewOf(mc)))
      invariant old(mc.wire.sent) <= mc.wire.sent
      decreases |mc.Inbox()|
    {
      ghost var v := ViewOf(mc);
      r := ReadReply(mc);
      assert More(v.status) && v.ps == v.ps;
      if r.Err? { return; }
      r := Ok(0);
    }
  }

  function ExecSpec(v: View): Out<int> {
    match ReplySpec(v.(affected := [], ids := []))
    case Done(x, _) => DiscardSpec(x)
    case other => other
  }

  /** Sends the query and reads every result it produces. Once the command is written, what is
      read are the packets numbered from where the command's frames end. */
  method Exec(mc: MysqlConn, query: seq<Byte>) returns (r: Result<int, Error>, ghost written: bool)
    requires mc.Valid()
    modifies mc.Repr()
    ensures mc.Valid() && fresh(mc.Repr() - old(mc.Repr()))
    ensures !written ==> r.Err?
    ensures written ==> old(mc.buf.length) == 0
    ensures mc.wire.reliable && old(mc.buf.length) == 0 && 1 + |query| <= old(mc.maxAllowedPacket) ==> written
    ensures written ==> old(mc.wire.sent) + Framing.Frames([0x03] + query, 0) <= mc.wire.sent
    ensures written ==> var first := Framing.After(1 + |query|, 0);
                        var q := old(mc.buf.Queue());
                        var v := View(Framing.Inbox(q, first), Framing.Leftover(q, first), old(mc.status), [], []);
                        Agrees(ExecSpec(v), ViewOf(mc), r)
  {
    hide ReplySpec, DiscardSpec, Framing.Frames, Framing.After, Framing.Inbox, Framing.Leftover;
    mc.affectedRows, mc.insertIds := [], [];
    var err := mc.WriteCommandPacketStr(COM_QUERY, query);
    written := err.None?;
    if err.Some? { return Err(err.value), written; }
    r := ReadReply(mc);
    if r.Err? { return; }
    r := DiscardResults(mc);
  }

  // ---- What a server sends ----

  function OkPacket(f: OkFields, info: seq<Byte>): (p: seq<Byte>)
    requires f.affected < Pow256(8) && f.insertId < Pow256(8)
    ensures p != [] && p[0] == IOK
  {
    [0x00] + EncodeInt(f.affected) + EncodeInt(f.insertId) + LE(f.status, 2) + info
  }

  function EofPacket(warnings: nat, status: nat): (p: seq<Byte>)
    ensures |p| == 5 && p[0] == IEOF
  {
    [0xfe] + LE(warnings, 2) + LE(status, 2)
  }

  lemma OkPacketParses(f: OkFields, info: seq<Byte>)
    requires f.affected < Pow256(8) && f.insertId < Pow256(8) && f.status < Pow256(2)
    ensures ParseOk(OkPacket(f, info)) == Some(f)
  {
    var p := OkPacket(f, info);
    var a, b := EncodeInt(f.affected), EncodeInt(f.insertId);
    var tail := LE(f.status, 2) + info;
    assert p[1..] == a + (b + tail);
    ReadIntInvertsEncodeInt(f.affected, b + tail);
    assert p[1 + |a|..] == b + tail;
    ReadIntInvertsEncodeInt(f.insertId, tail);
    var pos := 1 + |a| + |b|;
    assert p[pos..pos + 2] == LE(f.status, 2);
    FromLEInvertsLE(f.status, 2);
  }

  lemma EofPacketStatus(warnings: nat, status: nat)
    requires status < Pow256(2)
    ensures FromLE(EofPacket(warnings, status)[3..5]) == status
  {
    assert EofPacket(warnings, status)[3..5] == LE(status, 2);
    FromLEInvertsLE(status, 2);
  }

  /** What a server reports: a number, a state of five bytes unless it is too old for one, and
      a message. */
  datatype ErrFields = ErrFields(code: nat, state: Option<seq<Byte>>, message: seq<Byte>)

  predicate ErrFits(e: ErrFields) {
    e.code < 0x1_0000 && (e.state.Some? ==> |e.state.value| == 5)
  }

  function StateOf(e: ErrFields): seq<Byte> {
    if e.state.Some? then e.state.value else [0, 0, 0, 0, 0]
  }

  function ErrPacket(e: ErrFields): (p: seq<Byte>)
    ensures p != [] && p[0] == IERR
  {
    [0xff] + LE(e.code, 2) + (if e.state.Some? then [0x23] + e.state.value else []) + e.message
  }

  /** A message without a state must not be empty or look like one. */
  predicate Unambiguous(e: ErrFields) {
    e.state.None? ==> e.message != [] && e.message[0] != 0x23
  }

  /** Number, state and message are reported as the server wrote them if and only if there is a
      state, or a message that does not start with '#'. */
  lemma ErrorReportedIff(e: ErrFields)
    requires ErrFits(e)
    ensures ErrorOf(ErrPacket(e)) == MySQLError(e.code, StateOf(e), e.message) <==> Unambiguous(e)
  {
    hide LE, FromLE;
    var p := ErrPacket(e);
    assert p[1..3] == LE(e.code, 2);
    Widths();
    FromLEInvertsLE(e.code, 2);
    if e.state.Some? {
      assert p[4..9] == e.state.value && p[9..] == e.message;
    } else {
      assert p[3..] == e.message;
    }
  }

  /** A packet that the drain passes over. */
  predicate Passed(p: seq<Byte>) {
    p != [] && p[0] != IEOF && p[0] != IERR
  }

  ghost predicate AllPassed(ps: seq<seq<Byte>>) {
    forall i | 0 <= i < |ps| :: Passed(ps[i])
  }

  /** The drain passes over such packets and stops behind the EOF packet. */
  lemma {:induction false} DrainToEof(before: seq<seq<Byte>>, warnings: nat, status: nat, rest: seq<seq<Byte>>, v: View)
    requires AllPassed(before) && status < Pow256(2)
    requires v.ps == before + [EofPacket(warnings, status)] + rest
    ensures UntilEofSpec(v) == Done(v.(ps := rest, status := status), 0)
    decreases |before|
  {
    EofPacketStatus(warnings, status);
    if before == [] {
      assert v.ps[1..] == rest;
    } else {
      assert v.ps[0] == before[0];
      assert v.ps[1..] == before[1..] + [EofPacket(warnings, status)] + rest;
      DrainToEof(before[1..], warnings, status, rest, v.(ps := v.ps[1..]));
    }
  }

  /** The drain can only stop at a packet it does not pass over, so it consumes no more than
      the first of them. */
  lemma {:induction false} DrainStopsEarly(v: View, at: nat)
    requires at < |v.ps| && AllPassed(v.ps[..at]) && v.ps[at] != [] && !Passed(v.ps[at])
    ensures var out := UntilEofSpec(v);
            !out.Broken? && out.v.ps == v.ps[at + 1..] && (out.Stop? <==> v.ps[at][0] == IERR)
    decreases at
  {
    if at > 0 {
      assert Passed(v.ps[..at][0]);
      var w := v.(ps := v.ps[1..]);
      assert w.ps[..at - 1] == v.ps[..at][1..];
      DrainStopsEarly(w, at - 1);
      assert w.ps[at..] == v.ps[at + 1..];
    }
  }

  ghost predicate RowsFit(rows: seq<seq<Field>>) {
    forall i | 0 <= i < |rows| :: rows[i] != [] && RowFits(rows[i])
  }

  ghost function EncodeRows(rows: seq<seq<Field>>): (ps: seq<seq<Byte>>)
    requires RowsFit(rows)
    ensures |ps| == |rows| && forall i | 0 <= i < |ps| :: ps[i] == EncodeRow(rows[i])
  {
    seq(|rows|, i requires 0 <= i < |rows| => EncodeRow(rows[i]))
  }

  predicate LongFirstField(row: seq<Field>) {
    row != [] && row[0].Some? && |row[0].value| >= 0x100_0000
  }

  /** The drain tests only the first byte of a packet, so it discards exactly the rows up to
      their EOF packet if and only if no row starts with a field of 2^24 bytes or more. */
  lemma DrainExactIffShortFirstFields(rows: seq<seq<Field>>, warnings: nat, status: nat, rest: seq<seq<Byte>>, v: View)
    requires RowsFit(rows) && status < Pow256(2)
    requires v.ps == EncodeRows(rows) + [EofPacket(warnings, status)] + rest
    ensures UntilEofSpec(v) == Done(v.(ps := rest, status := status), 0)
            <==> forall i | 0 <= i < |rows| :: !LongFirstField(rows[i])
  {
    hide UntilEofSpec, EncodeRow, EofPacket, RowFits;
    forall i | 0 <= i < |rows| ensures Passed(EncodeRow(rows[i])) <==> !LongFirstField(rows[i]) {
      RowPassedIff(rows[i]);
    }
    if forall i | 0 <= i < |rows| :: !LongFirstField(rows[i]) {
      DrainToEof(EncodeRows(rows), warnings, status, rest, v);
    } else {
      var at := FirstLong(rows);
      assert v.ps[..at] == EncodeRows(rows)[..at];
      assert v.ps[at] == EncodeRow(rows[at]);
      RowPassedIff(rows[at]);
      DrainStopsEarly(v, at);
      assert |v.ps[at + 1..]| > |rest|;
    }
  }

  lemma RowPassedIff(row: seq<Field>)
    requires row != [] && RowFits(row)
    ensures EncodeRow(row) != [] && (Passed(EncodeRow(row)) <==> !LongFirstField(row))
  {
    RowIsNeverEofOrErr(row);
  }

  lemma FirstLong(rows: seq<seq<Field>>) returns (at: nat)
    requires exists i :: 0 <= i < |rows| && LongFirstField(rows[i])
    ensures at < |rows| && LongFirstField(rows[at]) && forall i | 0 <= i < at :: !LongFirstField(rows[i])
  {
    at := 0;
    while !LongFirstField(rows[at])
      invariant at < |rows| && forall i | 0 <= i < at :: !LongFirstField(rows[i])
      invariant exists i :: at <= i < |rows| && LongFirstField(rows[i])
      decreases |rows| - at
    {
      at := at + 1;
    }
  }

  // ---- Chains of results ----

  /** One result of a statement: an OK packet, or a header, column definitions and rows. */
  datatype Reply =
    | NoRows(ok: OkFields, info: seq<Byte>)
    | Rows(columns: seq<seq<Byte>>, columnsWarnings: nat, columnsStatus: nat,
           rows: seq<seq<Field>>, warnings: nat, status: nat)

  /** Column definitions start with the length of the catalog name; rows are discarded, so
      their first fields must be short enough for the drain. */
  ghost predicate WellFormed(r: Reply) {
    match r
    case NoRows(f, info) => f.affected < Pow256(8) && f.insertId < Pow256(8) && f.status < Pow256(2)
    case Rows(columns, _, columnsStatus, rows, _, status) =>
      && 0 < |columns| <= MAX_INT64 && |columns| < Pow256(8) && AllPassed(columns)
      && RowsFit(rows) && (forall i | 0 <= i < |rows| :: !LongFirstField(rows[i]))
      && columnsStatus < Pow256(2) && status < Pow256(2)
  }

  function StatusOf(r: Reply): nat {
    if r.NoRows? then r.ok.status else r.status
  }

  function AffectedOf(r: Reply): int {
    if r.NoRows? then Int64(r.ok.affected) else 0
  }

  function InsertIdOf(r: Reply): int {
    if r.NoRows? then Int64(r.ok.insertId) else 0
  }

  ghost function Packets(r: Reply): (ps: seq<seq<Byte>>)
    requires WellFormed(r)
  {
    match r
    case NoRows(f, info) => [OkPacket(f, info)]
    case Rows(columns, cw, cs, rows, w, st) =>
      [EncodeInt(|columns|)] + columns + [EofPacket(cw, cs)] + EncodeRows(rows) + [EofPacket(w, st)]
  }

  /** One result is read exactly: its packets, its status, one entry in each list. */
  lemma ReplyRead(r: Reply, rest: seq<seq<Byte>>, v: View)
    requires WellFormed(r) && v.ps == Packets(r) + rest
    ensures ReplySpec(v)
         == Done(View(rest, v.tail, StatusOf(r), v.affected + [AffectedOf(r)], v.ids + [InsertIdOf(r)]), 0)
  {
    if r.NoRows? {
      OkReplyRead(r, rest, v);
    } else {
      RowsReplyRead(r, rest, v);
    }
  }

  lemma OkReplyRead(r: Reply, rest: seq<seq<Byte>>, v: View)
    requires r.NoRows? && WellFormed(r) && v.ps == Packets(r) + rest
    ensures ReplySpec(v)
         == Done(View(rest, v.tail, StatusOf(r), v.affected + [AffectedOf(r)], v.ids + [InsertIdOf(r)]), 0)
  {
    OkPacketParses(r.ok, r.info);
    assert v.ps[0] == OkPacket(r.ok, r.info) && v.ps[1..] == rest;
    assert SetLast(v.affected + [0], AffectedOf(r)) == v.affected + [AffectedOf(r)];
    assert SetLast(v.ids + [0], InsertIdOf(r)) == v.ids + [InsertIdOf(r)];
  }

  lemma RowsReplyRead(r: Reply, rest: seq<seq<Byte>>, v: View)
    requires r.Rows? && WellFormed(r) && v.ps == Packets(r) + rest
    ensures ReplySpec(v) == Done(View(rest, v.tail, r.status, v.affected + [0], v.ids + [0]), 0)
  {
    var second := EncodeRows(r.rows) + [EofPacket(r.warnings, r.status)] + rest;
    RowsPackets(r, rest);
    CountHeaderRead(|r.columns|, EodColumns(r) + second, v);
    var h := View(EodColumns(r) + second, v.tail, v.status, v.affected + [0], v.ids + [0]);
    DrainToEof(r.columns, r.columnsWarnings, r.columnsStatus, second, h);
    DrainExactIffShortFirstFields(r.rows, r.warnings, r.status, rest, h.(ps := second, status := r.columnsStatus));
  }

  lemma RowsPackets(r: Reply, rest: seq<seq<Byte>>)
    requires r.Rows? && WellFormed(r)
    ensures var second := EncodeRows(r.rows) + [EofPacket(r.warnings, r.status)] + rest;
            Packets(r) + rest == [EncodeInt(|r.columns|)] + (EodColumns(r) + second)
  {
    Regroup([EncodeInt(|r.columns|)], r.columns, [EofPacket(r.columnsWarnings, r.columnsStatus)],
            EncodeRows(r.rows), [EofPacket(r.warnings, r.status)], rest);
  }

  lemma Regroup<A>(a: seq<A>, b: seq<A>, c: seq<A>, d: seq<A>, e: seq<A>, f: seq<A>)
    ensures a + b + c + d + e + f == a + ((b + c) + (d + e + f))
  {
  }

  function EodColumns(r: Reply): seq<seq<Byte>>
    requires r.Rows?
  {
    r.columns + [EofPacket(r.columnsWarnings, r.columnsStatus)]
  }

  lemma CountHeaderRead(count: nat, tail: seq<seq<Byte>>, v: View)
    requires 0 < count <= MAX_INT64 && count < Pow256(8) && v.ps == [EncodeInt(count)] + tail
    ensures HeaderSpec(v) == Done(View(tail, v.tail, v.status, v.affected + [0], v.ids + [0]), count)
  {
    var e := EncodeInt(count);
    ReadIntInvertsEncodeInt(count, []);
    assert e + [] == e;
    assert v.ps[1..] == tail;
  }

  /** All results but the last announce another one. */
  ghost predicate Chain(rs: seq<Reply>) {
    && rs != []
    && (forall i | 0 <= i < |rs| :: WellFormed(rs[i]))
    && (forall i | 0 <= i < |rs| :: More(StatusOf(rs[i])) <==> i < |rs| - 1)
  }

  ghost function AllPackets(rs: seq<Reply>): seq<seq<Byte>>
    requires forall i | 0 <= i < |rs| :: WellFormed(rs[i])
  {
    if rs == [] then [] else Packets(rs[0]) + AllPackets(rs[1..])
  }

  function AffectedList(rs: seq<Reply>): (l: seq<int>)
    ensures |l| == |rs| && forall i | 0 <= i < |l| :: l[i] == AffectedOf(rs[i])
  {
    seq(|rs|, i requires 0 <= i < |rs| => AffectedOf(rs[i]))
  }

  function InsertIdList(rs: seq<Reply>): (l: seq<int>)
    ensures |l| == |rs| && forall i | 0 <= i < |l| :: l[i] == InsertIdOf(rs[i])
  {
    seq(|rs|, i requires 0 <= i < |rs| => InsertIdOf(rs[i]))
  }

  /** The first of a chain, then the rest as the status bits ask for them. */
  lemma {:induction false} ChainRead(rs: seq<Reply>, rest: seq<seq<Byte>>, v: View)
    requires Chain(rs) && v.ps == AllPackets(rs) + rest
    ensures var out := ReplySpec(v);
            && out.Done?
            && DiscardSpec(out.v) == Done(View(rest, v.tail, StatusOf(rs[|rs| - 1]),
                                               v.affected + AffectedList(rs), v.ids + InsertIdList(rs)), 0)
    decreases |rs|
  {
    var more := rs[1..];
    var after := AllPackets(more) + rest;
    PacketsSplit(rs, rest);
    ReplyRead(rs[0], after, v);
    var w := View(after, v.tail, StatusOf(rs[0]), v.affected + [AffectedOf(rs[0])], v.ids + [InsertIdOf(rs[0])]);
    ListsSplit(rs, v.affected, v.ids);
    if |rs| > 1 {
      ChainRest(rs);
      ChainRead(more, rest, w);
    }
  }

  lemma PacketsSplit(rs: seq<Reply>, rest: seq<seq<Byte>>)
    requires rs != [] && forall i | 0 <= i < |rs| :: WellFormed(rs[i])
    ensures AllPackets(rs) + rest == Packets(rs[0]) + (AllPackets(rs[1..]) + rest)
    ensures |rs| == 1 ==> AllPackets(rs[1..]) + rest == rest
  {
    Associate(Packets(rs[0]), AllPackets(rs[1..]), rest);
    if |rs| == 1 {
      assert rs[1..] == [];
      EmptyLeft(rest);
    }
  }

  lemma ListsSplit(rs: seq<Reply>, affected: seq<int>, ids: seq<int>)
    requires rs != []
    ensures affected + AffectedList(rs) == affected + [AffectedOf(rs[0])] + AffectedList(rs[1..])
    ensures ids + InsertIdList(rs) == ids + [InsertIdOf(rs[0])] + InsertIdList(rs[1..])
  {
    assert AffectedList(rs) == [AffectedOf(rs[0])] + AffectedList(rs[1..]);
    assert InsertIdList(rs) == [InsertIdOf(rs[0])] + InsertIdList(rs[1..]);
  }

  lemma ChainRest(rs: seq<Reply>)
    requires Chain(rs) && |rs| > 1
    ensures Chain(rs[1..]) && rs[1..][|rs| - 2] == rs[|rs| - 1]
  {
  }

  /** exec consumes exactly the packets of the chain and leaves one entry per result. */
  lemma ExecReadsWholeChain(rs: seq<Reply>, rest: seq<seq<Byte>>, v: View)
    requires Chain(rs) && v.ps == AllPackets(rs) + rest
    ensures ExecSpec(v) == Done(View(rest, v.tail, StatusOf(rs[|rs| - 1]), AffectedList(rs), InsertIdList(rs)), 0)
  {
    var cleared := v.(affected := [], ids := []);
    ChainRead(rs, rest, cleared);
    assert [] + AffectedList(rs) == AffectedList(rs) && [] + InsertIdList(rs) == InsertIdList(rs);
  }

  // ---- Statements that fail ----

  /** Results that each announce another one. */
  ghost predicate Announcing(rs: seq<Reply>) {
    forall i | 0 <= i < |rs| :: WellFormed(rs[i]) && More(StatusOf(rs[i]))
  }

  ghost predicate FailsWith(out: Out<int>, e: ErrFields, rest: seq<seq<Byte>>) {
    out.Stop? && out.error == MySQLError(e.code, StateOf(e), e.message) && out.v.ps == rest
  }

  lemma ErrHeaderRead(e: ErrFields, rest: seq<seq<Byte>>, v: View)
    requires ErrFits(e) && Unambiguous(e) && v.ps == [ErrPacket(e)] + rest
    ensures FailsWith(ReplySpec(v), e, rest)
  {
    hide ErrPacket, ErrorOf;
    ErrorReportedIff(e);
    assert v.ps[0] == ErrPacket(e) && v.ps[1..] == rest;
  }

  lemma {:induction false} FailureRead(rs: seq<Reply>, e: ErrFields, rest: seq<seq<Byte>>, v: View)
    requires Announcing(rs) && ErrFits(e) && Unambiguous(e) && v.ps == AllPackets(rs) + ([ErrPacket(e)] + rest)
    ensures var out := ReplySpec(v);
            if rs == [] then FailsWith(out, e, rest) else out.Done? && FailsWith(DiscardSpec(out.v), e, rest)
    decreases |rs|
  {
    hide ErrPacket, ReplySpec;
    var after := [ErrPacket(e)] + rest;
    if rs == [] {
      EmptyLeft(after);
      ErrHeaderRead(e, rest, v);
    } else {
      var more := rs[1..];
      PacketsSplit(rs, after);
      ReplyRead(rs[0], AllPackets(more) + after, v);
      FailureRead(more, e, rest, ReplySpec(v).v);
    }
  }

  /** A statement that fails, at once or behind any number of results, is reported with the
      server's number, state and message, and nothing behind the error is consumed. */
  lemma ExecReportsFailure(rs: seq<Reply>, e: ErrFields, rest: seq<seq<Byte>>, v: View)
    requires Announcing(rs) && ErrFits(e) && Unambiguous(e) && v.ps == AllPackets(rs) + [ErrPacket(e)] + rest
    ensures FailsWith(ExecSpec(v), e, rest)
  {
    hide ErrPacket, ReplySpec, DiscardSpec, AllPackets;
    Associate(AllPackets(rs), [ErrPacket(e)], rest);
    FailureRead(rs, e, rest, v.(affected := [], ids := []));
  }

  // ---- Numbers and status bits ----

  /** The conversion keeps every number up to 2^63-1 and wraps the others around. */
  lemma Int64Wraps(u: nat)
    requires u < 0x1_0000_0000_0000_0000
    ensures u <= 0x7fff_ffff_ffff_ffff ==> Int64(u) == u
    ensures u > 0x7fff_ffff_ffff_ffff ==> Int64(u) == u - 0x1_0000_0000_0000_0000
    ensures -0x8000_0000_0000_0000 <= Int64(u) <= 0x7fff_ffff_ffff_ffff
    ensures (Int64(u) - u) % 0x1_0000_0000_0000_0000 == 0
  {
  }

  /** Another result follows exactly when the bit of value 8 is set. */
  lemma MoreIsTheBitOfEight(status: nat)
    ensures More(status) <==> status / 8 % 2 == 1
  {
    assert Bit(status, 3) == Bit(status / 2, 2) == Bit(status / 2 / 2, 1) == Bit(status / 2 / 2 / 2, 0);
    assert status / 2 / 2 / 2 == status / 8;
  }
}
