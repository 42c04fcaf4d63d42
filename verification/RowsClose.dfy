/** Leaving a row set early: skipping to the next result, and closing. */
module RowSets {
  import opened Bytes
  import opened Buffers
  import opened LengthEncoding
  import opened Connections
  import opened ResultSets
  import opened Proxying
  import Framing

  /** The rows of the current result that nobody has read. */
  function RestOfRows(v: View, done: bool): (out: Out<int>)
    ensures out.Done? ==> |out.v.ps| <= |v.ps|
  {
    if done then Done(v, 0) else UntilEofSpec(v)
  }

  /** nextResultSet1 in full: what is left of the current result is read first. */
  method SkipToNextResultSet1(rows: TextRows, mc: MysqlConn, dst: Sink) returns (r: Result<int, Error>)
    requires mc.Valid() && rows.mc == mc && !mc.closed
    modifies mc.Repr(), dst, rows
    ensures mc.Valid() && fresh(mc.Repr() - old(mc.Repr()))
    ensures match RestOfRows(old(ViewOf(mc)), old(rows.done))
            case Done(w, _) =>
              (if !More(w.status) then r == Err(EndOfRows) && rows.mc == null && ViewOf(mc) == w
               else rows.mc == mc && !rows.done && Agrees(HeaderSpec(w), ViewOf(mc), r))
            case Stop(w, e) => r == Err(e) && ViewOf(mc) == w && rows.mc == mc && !rows.done
            case Broken => r.Err? && rows.mc == mc && !rows.done
  {
    hide HeaderSpec, UntilEofSpec, Framing.Inbox, Framing.Leftover;
    if !rows.done {
      r := ReadUntilEOF(mc, dst);
      if r.Err? { return; }
      rows.done := true;
    }
    r := NextResultSet1(rows, mc, dst);
  }

  /** What Close reads: the rest of the rows, then every further result, counted afresh. */
  function CloseSpec(v: View, done: bool): Out<int> {
    match RestOfRows(v, done)
    case Done(w, _) => DiscardSpec(w.(affected := [], ids := []))
    case other => other
  }

  /** What Close does to the connection. */
  method DrainAndDiscard(mc: MysqlConn, done: bool) returns (err: Option<Error>, drained: bool)
    requires mc.Valid()
    modifies mc.Repr()
    ensures mc.Valid() && fresh(mc.Repr() - old(mc.Repr()))
    ensures match CloseSpec(old(ViewOf(mc)), done)
            case Done(v, _) => err == None && ViewOf(mc) == v
            case Stop(v, e) => err == Some(e) && ViewOf(mc) == v
            case Broken => err.Some?
    ensures drained <==> RestOfRows(old(ViewOf(mc)), done).Done?
  {
    hide UntilEofSpec, DiscardSpec, Framing.Inbox, Framing.Leftover, Buffer.Queue;
    err, drained := None, true;
    if !done {
      var r := ReadUntilEOF(mc, null);
      if r.Err? { return Some(r.error), false; }
    }
    mc.affectedRows, mc.insertIds := [], [];
    var discarded := DiscardResults(mc);
    if discarded.Err? { err := Some(discarded.error); }
  }

  /** Close: a failure while discarding further results leaves the row set attached, one
      while reading its own rows does not. */
  method Close(rows: TextRows) returns (err: Option<Error>)
    requires rows.mc != null ==> rows.mc.Valid()
    modifies ReprOf(rows.mc), rows
    ensures var mc := old(rows.mc);
            && (mc == null ==> err == None && rows.mc == null)
            && (mc != null ==>
                  && mc.Valid() && fresh(mc.Repr() - old(mc.Repr()))
                  && (old(mc.closed) ==> err == old(ConnError(mc)) && rows.mc == mc && ViewOf(mc) == old(ViewOf(mc))))
    ensures var mc := old(rows.mc);
            mc != null && !old(mc.closed) ==>
              && (match CloseSpec(old(ViewOf(mc)), old(rows.done))
                  case Done(v, _) => err == None && ViewOf(mc) == v
                  case Stop(v, e) => err == Some(e) && ViewOf(mc) == v
                  case Broken => err.Some?)
              && rows.mc == if err.Some? && RestOfRows(old(ViewOf(mc)), old(rows.done)).Done? then mc else null
  {
    hide CloseSpec, RestOfRows, Framing.Inbox, Framing.Leftover, Buffer.Queue;
    if rows.mc == null { return None; }
    var mc := rows.mc;
    var e := ConnError(mc);
    if e.Some? { return e; }
    mc.buf.Flip();
    var drained;
    err, drained := DrainAndDiscard(mc, rows.done);
    if err.Some? && drained { return; }
    rows.mc := null;
  }

  /** Closing in the middle of the rows, with any chain of results still to come, leaves the
      connection in step and open for the next command: exactly the packets of the statement
      are consumed. */
  lemma CloseReadsTheRest(unread: seq<seq<Field>>, warnings: nat, status: nat, rs: seq<Reply>, rest: seq<seq<Byte>>,
      v: View)
    requires RowsFit(unread) && forall i | 0 <= i < |unread| :: !LongFirstField(unread[i])
    requires status < Pow256(2) && More(status) && Chain(rs)
    requires v.ps == EncodeRows(unread) + [EofPacket(warnings, status)] + (AllPackets(rs) + rest)
    ensures CloseSpec(v, false)
            == Done(View(rest, v.tail, StatusOf(rs[|rs| - 1]), AffectedList(rs), InsertIdList(rs)), 0)
  {
    hide UntilEofSpec, ReplySpec, AllPackets, EncodeRows;
    DrainExactIffShortFirstFields(unread, warnings, status, AllPackets(rs) + rest, v);
    var w := v.(ps := AllPackets(rs) + rest, status := status);
    DiscardChain(rs, rest, w.(affected := [], ids := []));
    EmptyLeft(AffectedList(rs));
    EmptyLeft(InsertIdList(rs));
  }

  lemma DiscardChain(rs: seq<Reply>, rest: seq<seq<Byte>>, v: View)
    requires Chain(rs) && More(v.status) && v.ps == AllPackets(rs) + rest
    ensures DiscardSpec(v) == Done(View(rest, v.tail, StatusOf(rs[|rs| - 1]),
                                        v.affected + AffectedList(rs), v.ids + InsertIdList(rs)), 0)
  {
    hide AllPackets;
    ChainRead(rs, rest, v);
  }

  lemma {:induction false} DrainKeepsLists(v: View)
    requires UntilEofSpec(v).Done?
    ensures UntilEofSpec(v).v.affected == v.affected && UntilEofSpec(v).v.ids == v.ids
    ensures UntilEofSpec(v).v.tail == v.tail && UntilEofSpec(v).value == 0
    decreases |v.ps|
  {
    if v.ps[0][0] != IEOF {
      DrainKeepsLists(v.(ps := v.ps[1..]));
    }
  }

  /** Every result that is read adds an entry. */
  lemma ReplyCounts(v: View)
    requires ReplySpec(v).Done?
    ensures |ReplySpec(v).v.affected| == |v.affected| + 1
  {
    hide UntilEofSpec, ReadInt;
    var h := HeaderSpec(v);
    assert |h.v.affected| == |v.affected| + 1;
    if h.value > 0 {
      DrainKeepsLists(h.v);
      DrainKeepsLists(UntilEofSpec(h.v).v);
    }
  }

  lemma {:induction false} DiscardCounts(v: View)
    requires DiscardSpec(v).Done?
    ensures if More(v.status) then |DiscardSpec(v).v.affected| > |v.affected| else DiscardSpec(v) == Done(v, 0)
    decreases |v.ps|
  {
    hide ReplySpec;
    if More(v.status) {
      ReplyCounts(v);
      DiscardCounts(ReplySpec(v).v);
    }
  }

  /** With nothing behind the rows, closing is exact if and only if no unread row starts with
      a field of 2^24 bytes or more. */
  lemma CloseIsExactIff(unread: seq<seq<Field>>, warnings: nat, status: nat, rest: seq<seq<Byte>>, v: View)
    requires RowsFit(unread) && status < Pow256(2) && !More(status)
    requires v.ps == EncodeRows(unread) + [EofPacket(warnings, status)] + rest
    ensures CloseSpec(v, false) == Done(View(rest, v.tail, status, [], []), 0)
            <==> forall i | 0 <= i < |unread| :: !LongFirstField(unread[i])
  {
    hide UntilEofSpec, ReplySpec, EncodeRows;
    DrainExactIffShortFirstFields(unread, warnings, status, rest, v);
    var r := RestOfRows(v, false);
    if r.Done? {
      var w := r.v.(affected := [], ids := []);
      if DiscardSpec(w).Done? {
        DiscardCounts(w);
        DrainKeepsLists(v);
      }
    }
  }
}
