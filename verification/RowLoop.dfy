/** The proxy's loop over the rows of an answer, on answers that may be cut off: when it ends,
    and when it never does. */
module RowLoop {
  import opened Bytes
  import opened Buffers
  import opened LengthEncoding
  import opened Connections
  import opened ResultSets
  import opened Proxying
  import Framing

  /** The number of calls of Next1 after which the end of the rows has been reported: one for
      each row, one for the EOF packet, two for an ERR packet. */
  function CallsToEnd(ps: seq<seq<Byte>>): Option<nat> {
    if ps == [] then None
    else if IsRowEof(ps[0]) then Some(1)
    else if IsErr(ps[0]) then Some(2)
    else match CallsToEnd(ps[1..])
      case None => None
      case Some(n) => Some(n + 1)
  }

  predicate IsEnd(p: seq<Byte>) {
    IsRowEof(p) || IsErr(p)
  }

  lemma {:induction false} CallsToEndIff(ps: seq<seq<Byte>>)
    ensures CallsToEnd(ps).Some? <==> exists i :: 0 <= i < |ps| && IsEnd(ps[i])
    ensures CallsToEnd(ps).Some? ==> CallsToEnd(ps).value <= |ps| + 1
  {
    if ps != [] {
      CallsToEndIff(ps[1..]);
      if IsEnd(ps[0]) {
      } else if CallsToEnd(ps).Some? {
        var i :| 0 <= i < |ps[1..]| && IsEnd(ps[1..][i]);
        assert IsEnd(ps[i + 1]);
      } else {
        forall i | 0 <= i < |ps| ensures !IsEnd(ps[i]) {
          assert i > 0 ==> ps[i] == ps[1..][i - 1];
        }
      }
    }
  }

  /** The rows in front of the end can be decoded. */
  predicate RowsDecode(ps: seq<seq<Byte>>, columns: nat) {
    ps == [] || IsEnd(ps[0]) || (ReadFields(ps[0], 0, columns).Row? && RowsDecode(ps[1..], columns))
  }

  /** Reading behind the packets closes the connection. */
  ghost predicate BreaksOff(mc: MysqlConn)
    requires mc.Valid()
    reads mc, mc.buf, mc.buf.buf, mc.wire
  {
    mc.canceled.None? && (mc.Fate().Lost? || mc.Fate().Malformed?)
  }

  /** The states of the loop after `i` calls: rows are left to read; an ERR packet has been
      read; or the connection has been closed, and will never report the end. */
  ghost predicate Going(rows: TextRows, mc: MysqlConn, calls: Option<nat>, i: nat)
    requires mc.Valid()
    reads rows, mc, mc.buf, mc.buf.buf, mc.wire
  {
    || (rows.mc == mc && !mc.closed && !rows.done && BreaksOff(mc) && RowsDecode(mc.Inbox(), |rows.columns|)
        && calls == match CallsToEnd(mc.Inbox()) case None => None case Some(n) => Some(i + n))
    || (rows.mc == null && calls == Some(i + 1))
    || (rows.mc == mc && mc.closed && calls == None)
  }

  method OneCall(rows: TextRows, mc: MysqlConn, dst: Sink, ghost calls: Option<nat>, ghost i: nat)
      returns (ended: bool)
    requires mc.Valid() && Going(rows, mc, calls, i)
    modifies mc.Repr(), dst, rows
    ensures mc.Valid() && fresh(mc.Repr() - old(mc.Repr()))
    ensures ended ==> calls == Some(i + 1)
    ensures !ended ==> Going(rows, mc, calls, i + 1) && (calls.Some? ==> calls.value > i + 1)
    ensures !ended && !old(mc.closed) && old(mc.Inbox()) == [] && old(rows.mc) != null ==> mc.closed
    ensures !ended && !mc.closed && rows.mc != null ==>
              |mc.Inbox()| < |old(mc.Inbox())| && !old(mc.closed) && old(rows.mc) != null
  {
    hide ReadFields, Framing.Inbox, Framing.Leftover, Framing.Fate;
    var r := Next1(rows, dst);
    ended := r == Err(EndOfRows);
  }

  /** The first `n` turns of the loop that waits for the end of the rows, on an answer with
      rows that decode and a stream that breaks off behind them. For every `n` it has ended if
      and only if that many calls reach the end of the rows; without an end it never does,
      and once the packets are used up it spins on a closed connection. */
  method DrainFor(rows: TextRows, mc: MysqlConn, dst: Sink, n: nat) returns (ended: bool)
    requires mc.Valid() && rows.mc == mc && !mc.closed && !rows.done && BreaksOff(mc)
    requires RowsDecode(mc.Inbox(), |rows.columns|)
    modifies mc.Repr(), dst, rows
    ensures mc.Valid()
    ensures var calls := CallsToEnd(old(mc.Inbox())); ended <==> calls.Some? && calls.value <= n
    ensures CallsToEnd(old(mc.Inbox())).None? && n > |old(mc.Inbox())| ==> mc.closed && rows.mc == mc
  {
    hide Going, BreaksOff, RowsDecode, CallsToEnd, MysqlConn.Inbox;
    ghost var calls, packets := CallsToEnd(mc.Inbox()), |mc.Inbox()|;
    ended := false;
    var i := 0;
    StartsGoing(rows, mc, calls);
    while i < n && !ended
      invariant 0 <= i <= n && mc.Valid() && fresh(mc.Repr() - old(mc.Repr()))
      invariant if ended then calls.Some? && calls.value == i else Going(rows, mc, calls, i)
      invariant !ended && calls.Some? ==> calls.value > i
      invariant !ended && rows.mc != null && !mc.closed ==> |mc.Inbox()| + i <= packets
      decreases n - i
    {
      GoingOn(rows, mc, calls, i);
      ended := OneCall(rows, mc, dst, calls, i);
      i := i + 1;
    }
    if !ended { GoingOn(rows, mc, calls, i); }
  }

  lemma StartsGoing(rows: TextRows, mc: MysqlConn, calls: Option<nat>)
    requires mc.Valid() && rows.mc == mc && !mc.closed && !rows.done && BreaksOff(mc)
    requires RowsDecode(mc.Inbox(), |rows.columns|) && calls == CallsToEnd(mc.Inbox())
    ensures Going(rows, mc, calls, 0) && (calls.Some? ==> calls.value > 0)
  {
    hide MysqlConn.Inbox, RowsDecode;
  }

  lemma GoingOn(rows: TextRows, mc: MysqlConn, calls: Option<nat>, i: nat)
    requires mc.Valid() && Going(rows, mc, calls, i)
    ensures rows.mc == null ==> calls.Some?
    ensures rows.mc != null ==> rows.mc == mc
    ensures mc.Inbox() == [] && !mc.closed && rows.mc != null ==> calls.None?
  {
    hide MysqlConn.Inbox, RowsDecode;
  }

  /** A replica that drops in the middle of a packet: if no packet before it ends the rows,
      no number of calls reaches the end. */
  lemma DroppedReplicaNeverEnds(ps: seq<seq<Byte>>, p: seq<Byte>, s: Byte, n: nat)
    requires Framing.Nonempty(ps) && forall i | 0 <= i < |ps| :: !IsEnd(ps[i])
    requires n < |Framing.Frames(p, Framing.StreamEnd(ps, s))|
    ensures var q := Framing.Stream(ps, s) + Framing.Frames(p, Framing.StreamEnd(ps, s))[..n];
            Framing.Fate(q, s).Lost? && CallsToEnd(Framing.Inbox(q, s)) == None
  {
    Framing.BrokenStream(ps, p, s, n);
    CallsToEndIff(ps);
  }
}
