/** The connection: packets over the double-buffered reader and the in-place frame writer. */
module Connections {
  import opened Bytes
  import opened Buffers
  import opened Framing
  import opened PacketWrites

  datatype Error =
    | InvalidConn | PktSync | PktSyncMul | PktTooLarge | BadConnNoWrite | MalformPkt
    | CanceledBy(code: int)
    | MySQLError(number: nat, state: seq<Byte>, message: seq<Byte>)
    | ColumnMismatch | EndOfRows | Conversion | RuntimePanic | LocalInFile
    | Unsupported | ArgumentCount | YearRange | Skip

  const COM_QUIT: Byte := 1
  const COM_QUERY: Byte := 3

  /** The client side of the proxy: whatever is written arrives in order. */
  class Sink {
    var received: seq<Byte>

    constructor ()
      ensures received == []
    {
      received := [];
    }

    method Write(data: seq<Byte>)
      modifies this
      ensures received == old(received) + data
    {
      received := received + data;
    }
  }

  class MysqlConn {
    const wire: Wire
    const buf: Buffer
    var sequence: Byte
    var maxAllowedPacket: int
    var closed: bool
    var canceled: Option<int>
    var status: nat
    var affectedRows: seq<int>
    var insertIds: seq<int>

    constructor (wire: Wire, maxAllowedPacket: int)
      ensures Valid() && !closed && this.wire == wire && this.maxAllowedPacket == maxAllowedPacket
      ensures fresh(this) && fresh(buf.Repr())
    {
      this.wire := wire;
      this.buf := new Buffer(wire);
      this.maxAllowedPacket := maxAllowedPacket;
      sequence, closed, canceled, status := 0, false, None, 0;
      affectedRows, insertIds := [], [];
    }

    ghost predicate Valid()
      reads this, buf
    {
      buf.nc == wire && buf.Valid()
    }

    /** What a successful read leaves alone. */
    ghost function State(): (bool, Option<int>, int, nat, seq<int>, seq<int>)
      reads this
    {
      (closed, canceled, maxAllowedPacket, status, affectedRows, insertIds)
    }

    /** The packets still to be read. */
    ghost function Inbox(): seq<seq<Byte>>
      requires Valid()
      reads this, buf, buf.buf, wire
    {
      Framing.Inbox(buf.Queue(), sequence)
    }

    /** Why reading will stop behind them. */
    ghost function Fate(): Failure
      requires Valid()
      reads this, buf, buf.buf, wire
    {
      Framing.Fate(buf.Queue(), sequence)
    }

    ghost function Leftover(): seq<Byte>
      requires Valid()
      reads this, buf, buf.buf, wire
    {
      Framing.Leftover(buf.Queue(), sequence)
    }

    ghost function Repr(): set<object>
      reads this, buf
    {
      {this, wire} + buf.Repr()
    }

    /** The next `n` bytes, passed on to the client if there is one. */
    method ReadThrough(n: nat, dst: Sink?) returns (ok: bool, data: seq<Byte>)
      requires Valid()
      modifies wire`incoming, buf.Repr(), dst
      ensures Valid() && fresh(Repr() - old(Repr()))
      ensures ok <==> n <= |old(buf.Queue())|
      ensures ok ==> data == old(buf.Queue())[..n] && buf.Queue() == old(buf.Queue())[n..]
      ensures dst != null && ok ==> dst.received + buf.Queue() == old(dst.received + buf.Queue())
    {
      hide Buffer.Queue;
      ghost var q := buf.Queue();
      var slice: Slice;
      data := [];
      ok, slice := buf.ReadNext(n);
      if !ok { return; }
      data := slice.Bytes();
      if dst != null {
        ghost var received := dst.received;
        dst.Write(data);
        TakeDrop(q, n);
        Associate(received, q[..n], q[n..]);
      }
    }

    /** One frame: four bytes of header, then the body. */
    method ReadFrame(dst: Sink?) returns (r: Result<seq<Byte>, Failure>)
      requires Valid()
      modifies this`sequence, wire`incoming, buf.Repr(), dst
      ensures Valid() && fresh(Repr() - old(Repr()))
      ensures match ParseFrame(old(buf.Queue()), old(sequence))
              case NoFrame(why) => r == Err(why)
              case Frame(body, rest) => r == Ok(body) && buf.Queue() == rest && sequence == Next(old(sequence))
      ensures dst != null && r.Ok? ==> dst.received + buf.Queue() == old(dst.received + buf.Queue())
    {
      hide ParseFrame, FromLE, HeaderLength, Buffer.Queue;
      ghost var q := buf.Queue();
      var ok, header := ReadThrough(4, dst);
      if !ok {
        NoHeader(q, sequence);
        return Err(Lost);
      }
      var pktLen := HeaderLength(header);
      FrameAhead(q, sequence);
      if header[3] != sequence {
        return Err(if header[3] > sequence then SyncMul else Sync);
      }
      sequence := Next(sequence);
      if pktLen == 0 {
        return Ok([]);
      }
      var body;
      ok, body := ReadThrough(pktLen, dst);
      r := if ok then Ok(body) else Err(Lost);
    }

    /** The three length bytes put together with shifts. */
    static function HeaderLength(h: seq<Byte>): (len: nat)
      requires |h| == 4
      ensures len == FromLE(h[..3])
    {
      assert h[..3] == [h[0], h[1], h[2]];
      Header3(h[..3], h[0], h[1], h[2]);
      var b0: int, b1: int, b2: int := h[0], h[1], h[2];
      b0 + 0x100 * b1 + 0x1_0000 * b2
    }

    static lemma NoHeader(q: seq<Byte>, s: Byte)
      requires |q| < 4
      ensures ParseFrame(q, s) == NoFrame(Lost)
    {
    }

    static lemma FrameAhead(q: seq<Byte>, s: Byte)
      requires |q| >= 4
      ensures var len := HeaderLength(q[..4]);
              && ParseFrame(q, s) == (if q[3] != s then NoFrame(if q[3] > s then SyncMul else Sync)
                                      else if |q[4..]| < len then NoFrame(Lost)
                                      else Frame(q[4..][..len], q[4..][len..]))
              && q[4..][..0] == [] && q[4..][0..] == q[4..]
    {
      assert q[..4][..3] == q[..3];
      var len := HeaderLength(q[..4]);
      if |q| - 4 >= len {
        assert q[4..][..len] == q[4..4 + len] && q[4..][len..] == q[4 + len..];
      }
    }

    static lemma Header3(h: seq<Byte>, b0: Byte, b1: Byte, b2: Byte)
      requires h == [b0, b1, b2]
      ensures FromLE(h) == b0 + 0x100 * b1 + 0x1_0000 * b2
    {
      assert h[1..] == [b1, b2] && h[1..][1..] == [b2] && h[1..][1..][1..] == [];
      assert FromLE([b2]) == b2;
      assert FromLE([b1, b2]) == b1 + 0x100 * b2;
    }

    /** Joins frames until one is not full. */
    method ReadFrames(dst: Sink?) returns (r: Result<seq<Byte>, Failure>)
      requires Valid()
      modifies this`sequence, wire`incoming, buf.Repr(), dst
      ensures Valid() && fresh(Repr() - old(Repr()))
      ensures match Parse(old(buf.Queue()), old(sequence), None)
              case Packet(p, rest, s) => r == Ok(p) && buf.Queue() == rest && sequence == s
              case Bad(why) => r == Err(why)
      ensures dst != null && r.Ok? ==> dst.received + buf.Queue() == old(dst.received + buf.Queue())
    {
      hide ParseFrame, Buffer.Queue;
      var prevData: Option<seq<Byte>> := None;
      while true
        invariant Valid() && fresh(Repr() - old(Repr()))
        invariant prevData.Some? ==> prevData.value != []
        invariant Parse(buf.Queue(), sequence, prevData) == Parse(old(buf.Queue()), old(sequence), None)
        invariant dst != null ==> dst.received + buf.Queue() == old(dst.received + buf.Queue())
        decreases |buf.Queue()|
      {
        var frame := ReadFrame(dst);
        if frame.Err? { return frame; }
        var data := frame.value;
        if data == [] {
          return if prevData.None? then Err(Malformed) else Ok(prevData.value);
        }
        if |data| < MAX {
          return Ok(Joined(prevData, data));
        }
        prevData := Some(Joined(prevData, data));
      }
    }

    /** readPacket and, with a client to copy to, readPacket1: one payload, its frames joined. */
    method ReadPacket(dst: Sink?) returns (r: Result<seq<Byte>, Error>)
      requires Valid()
      modifies Repr(), dst
      ensures Valid() && fresh(Repr() - old(Repr()))
      ensures match Parse(old(buf.Queue()), old(sequence), None)
              case Packet(p, rest, s) => r == Ok(p) && buf.Queue() == rest && sequence == s && State() == old(State())
              case Bad(Sync) => r == Err(PktSync) && State() == old(State())
              case Bad(SyncMul) => r == Err(PktSyncMul) && State() == old(State())
              case Bad(Malformed) => r == Err(InvalidConn) && closed
              case Bad(Lost) => if old(canceled).Some? then r == Err(CanceledBy(old(canceled).value))
                                else r == Err(InvalidConn) && closed
      ensures r.Ok? <==> old(Inbox()) != []
      ensures r.Ok? ==> r.value == old(Inbox())[0] && Inbox() == old(Inbox())[1..] && r.value != []
      ensures r.Ok? ==> Leftover() == old(Leftover()) && wire.sent == old(wire.sent) && Fate() == old(Fate())
      ensures r.Err? && canceled.None? && (old(Fate()).Lost? || old(Fate()).Malformed?) ==> closed
      ensures dst != null && r.Ok? ==> dst.received + buf.Queue() == old(dst.received + buf.Queue())
      ensures canceled == old(canceled) && maxAllowedPacket == old(maxAllowedPacket)
      ensures old(wire.sent) <= wire.sent
    {
      hide Parse, Framing.Inbox, Framing.Leftover, Framing.Fate, Buffer.Queue;
      InboxStep(buf.Queue(), sequence);
      var payload := ReadFrames(dst);
      match payload {
        case Ok(data) => r := Ok(data);
        case Err(SyncMul) => r := Err(PktSyncMul);
        case Err(Sync) => r := Err(PktSync);
        case Err(Malformed) =>
          Close();
          r := Err(InvalidConn);
        case Err(Lost) =>
          if canceled.Some? { return Err(CanceledBy(canceled.value)); }
          Close();
          r := Err(InvalidConn);
      }
    }

    method Cleanup()
      modifies this
      ensures closed && canceled == old(canceled) && maxAllowedPacket == old(maxAllowedPacket)
      ensures if old(closed) then affectedRows == old(affectedRows) && insertIds == old(insertIds)
              else affectedRows == [] && insertIds == []
      ensures sequence == old(sequence) && status == old(status)
    {
      if closed { return; }
      closed := true;
      affectedRows, insertIds := [], [];
    }

    method Close()
      requires Valid()
      modifies this, wire`sent, buf.buf
      ensures Valid() && closed && canceled == old(canceled) && maxAllowedPacket == old(maxAllowedPacket)
      ensures old(wire.sent) <= wire.sent && (old(closed) ==> wire.sent == old(wire.sent))
      ensures wire.reliable && !old(closed) && buf.length == 0 && 1 <= maxAllowedPacket ==>
                wire.sent == old(wire.sent) + Frames([0x01], 0)
    {
      hide Frames;
      if !closed {
        var err := WriteCommandPacket(COM_QUIT);
      }
      Cleanup();
    }

    method WriteCommandPacket(command: Byte) returns (err: Option<Error>)
      requires Valid()
      modifies this, wire`sent, buf.buf
      ensures Valid() && canceled == old(canceled) && maxAllowedPacket == old(maxAllowedPacket)
      ensures err.None? ==> wire.sent == old(wire.sent) + Frames([command], 0) && sequence == 1
      ensures buf.length > 0 ==> err == Some(BadConnNoWrite) && wire.sent == old(wire.sent)
      ensures wire.reliable && buf.length == 0 && 1 <= maxAllowedPacket ==> err.None?
      ensures old(wire.sent) <= wire.sent
    {
      hide History, Sent, ReportOf;
      sequence := 0;
      var taken := buf.TakeSmallBuffer(4 + 1);
      if taken.None? {
        return Some(BadConnNoWrite);
      }
      var data := taken.value;
      data.arr[4] := command;
      err := WritePacket(data);
    }

    method WriteCommandPacketStr(command: Byte, arg: seq<Byte>) returns (err: Option<Error>)
      requires Valid()
      modifies this, wire`sent, buf`buf, buf.buf
      ensures Valid() && fresh(Repr() - old(Repr()))
      ensures canceled == old(canceled) && maxAllowedPacket == old(maxAllowedPacket) && status == old(status)
      ensures old(buf.length) == 0 ==> buf.Queue() == old(buf.Queue())
      ensures err.None? ==> wire.sent == old(wire.sent) + Frames([command] + arg, 0)
                            && sequence == After(1 + |arg|, 0) && State() == old(State())
      ensures old(buf.length) > 0 ==> err == Some(BadConnNoWrite) && wire.sent == old(wire.sent)
      ensures wire.reliable && old(buf.length) == 0 && 1 + |arg| <= maxAllowedPacket ==> err.None?
    {
      hide Frames, After, Buffer.Queue, History, Sent, ReportOf;
      sequence := 0;
      var pktLen := 1 + |arg|;
      var taken := buf.TakeBuffer(pktLen + 4);
      if taken.None? {
        return Some(BadConnNoWrite);
      }
      buf.EmptyQueue();
      var data := taken.value;
      Put(data.arr, 4, [command] + arg);
      assert data.Bytes()[4..] == data.arr[4..4 + pktLen];
      err := WritePacket(data);
      buf.EmptyQueue();
    }

    /** One frame of the packet in `data`, its body already in place behind `off`: the header
        goes over the four bytes before the body. */
    method WriteFrame(data: Slice, off: nat, size: nat) returns (n: nat, err: IoError)
      requires data.Valid() && data.off <= off && off + 4 + size <= data.off + data.len
      requires size == if data.off + data.len - off - 4 >= MAX then MAX else data.off + data.len - off - 4
      modifies data.arr, wire`sent
      ensures n <= 4 + size && (wire.reliable ==> n == 4 + size && err == NoError)
      ensures var left := old(data.arr[off + 4..data.off + data.len]);
              && data.arr[off + 4..data.off + data.len] == left
              && wire.sent == old(wire.sent) + (Header(size, sequence) + left[..size])[..n]
      ensures data.arr[..data.off] == old(data.arr[..data.off])
      ensures data.arr[data.off + data.len..] == old(data.arr[data.off + data.len..])
    {
      ghost var before := data.arr[..];
      PutHeader(data.arr, off, size);
      Windows(before, data.arr[..], data.off, off, data.off + data.len, size);
      n, err := wire.Write(data.arr[off..off + 4 + size]);
    }

    /** Rewriting four bytes leaves the windows before and behind them alone. */
    static lemma Windows(a: seq<Byte>, b: seq<Byte>, lo: nat, off: nat, end: nat, size: nat)
      requires |a| == |b| && lo <= off && off + 4 + size <= end <= |a|
      requires a[..off] == b[..off] && a[off + 4..] == b[off + 4..]
      ensures a[..lo] == b[..lo] && a[end..] == b[end..] && a[off + 4..end] == b[off + 4..end]
      ensures b[off..off + 4 + size] == b[off..off + 4] + a[off + 4..end][..size]
    {
      assert a[..lo] == a[..off][..lo] && b[..lo] == b[..off][..lo];
      assert a[end..] == a[off + 4..][end - off - 4..] && b[end..] == b[off + 4..][end - off - 4..];
      assert a[off + 4..end] == a[off + 4..][..end - off - 4] && b[off + 4..end] == b[off + 4..][..end - off - 4];
    }

    method PutHeader(arr: array<Byte>, off: nat, size: nat)
      requires size <= MAX && off + 4 <= arr.Length
      modifies arr
      ensures arr[off..off + 4] == Header(size, sequence)
      ensures arr[..off] == old(arr[..off]) && arr[off + 4..] == old(arr[off + 4..])
    {
      LE3(size);
      if size == MAX {
        arr[off], arr[off + 1], arr[off + 2] := 0xff, 0xff, 0xff;
      } else {
        arr[off], arr[off + 1], arr[off + 2] := size % 256, size / 0x100 % 256, size / 0x1_0000 % 256;
      }
      arr[off + 3] := sequence;
    }

    /** The error for a way the frame loop can end. */
    function WriteError(report: Report): Option<Error>
      reads this
    {
      match report
      case Complete => None
      case Short => Some(InvalidConn)
      case NoWrite => Some(if canceled.Some? then CanceledBy(canceled.value) else BadConnNoWrite)
      case Broken => Some(if canceled.Some? then CanceledBy(canceled.value) else InvalidConn)
    }

    /** What the writer reports, by what the last Write reported: the context's error whenever a
        Write fails on a cancelled connection; otherwise that nothing was written, if that Write
        wrote nothing, and a lost connection in every other case. */
    lemma WriteErrorMeans(p: seq<Byte>, os: seq<Outcome>)
      requires History(p, os)
      ensures var err, last := WriteError(ReportOf(p, os)), os[|os| - 1];
              && (last.ok ==> err == if last.n == 4 + FrameLen(p, |os| - 1) then None else Some(InvalidConn))
              && (!last.ok && canceled.Some? ==> err == Some(CanceledBy(canceled.value)))
              && (!last.ok && canceled.None? ==> err == Some(if last.n == 0 then BadConnNoWrite else InvalidConn))
    {
    }

    /** Sends data[4..] as a packet; data[..4] is room for the first header, and every later
        header overwrites the last four bytes of the frame just sent. */
    method WritePacket(data: Slice) returns (err: Option<Error>)
      requires data.Valid() && data.len >= 4
      modifies this, wire`sent, data.arr
      ensures canceled == old(canceled) && maxAllowedPacket == old(maxAllowedPacket) && status == old(status)
      ensures data.arr[..data.off] == old(data.arr[..data.off])
      ensures data.arr[data.off + data.len..] == old(data.arr[data.off + data.len..])
      ensures data.len - 4 > maxAllowedPacket ==> err == Some(PktTooLarge) && wire.sent == old(wire.sent)
      ensures err == Some(PktTooLarge) ==> data.len - 4 > maxAllowedPacket
      ensures wire.reliable && data.len - 4 <= maxAllowedPacket ==> err.None?
      ensures closed == (old(closed) || err == Some(InvalidConn))
      ensures var payload := old(data.Bytes())[4..];
              && (err.None? ==> wire.sent == old(wire.sent) + Frames(payload, old(sequence))
                                && sequence == After(|payload|, old(sequence)) && closed == old(closed)
                                && affectedRows == old(affectedRows) && insertIds == old(insertIds))
              && old(wire.sent) <= wire.sent <= old(wire.sent) + Frames(payload, old(sequence))
              && (err == Some(BadConnNoWrite) && |payload| < MAX ==> wire.sent == old(wire.sent))
      ensures var payload := old(data.Bytes())[4..];
              |payload| <= maxAllowedPacket ==>
                exists os: seq<Outcome> :: History(payload, os) && err == WriteError(ReportOf(payload, os))
                                           && wire.sent == old(wire.sent) + Sent(payload, old(sequence), os)
    {
      hide Frames, After, History, Sent, ReportOf;
      if data.len - 4 > maxAllowedPacket {
        return Some(PktTooLarge);
      }
      ghost var payload, first := data.Bytes()[4..], sequence;
      assert payload == data.arr[data.off + 4..data.off + data.len];
      ghost var os;
      err, os := SendFrames(data);
      SentIsPrefix(payload, first, os);
      if err.None? { CompleteSendsFrames(payload, first, os); }
      if err == Some(BadConnNoWrite) && |payload| < MAX { OneFrameOnly(payload, first, os); }
    }

    /** One turn of the loop, `os` being the outcomes so far. */
    method SendOne(data: Slice, off: nat, size: nat, ghost p: seq<Byte>, ghost s: Byte, ghost start: seq<Byte>,
        ghost os: seq<Outcome>)
      returns (n: nat, err: IoError, ghost more: seq<Outcome>)
      requires data.Valid() && data.off <= off && off + 4 + size <= data.off + data.len
      requires size == if data.off + data.len - off - 4 >= MAX then MAX else data.off + data.len - off - 4
      requires SoFar(p, os) && Start(|os|) <= |p| && Possible(p, os)
      requires data.arr[off + 4..data.off + data.len] == p[Start(|os|)..]
      requires sequence == (s + |os|) % 256 && wire.sent == start + Sent(p, s, os)
      modifies data.arr, wire`sent
      ensures n <= 4 + size && (wire.reliable ==> n == 4 + size && err == NoError)
      ensures data.arr[off + 4..data.off + data.len] == old(data.arr[off + 4..data.off + data.len])
      ensures data.arr[..data.off] == old(data.arr[..data.off])
      ensures data.arr[data.off + data.len..] == old(data.arr[data.off + data.len..])
      ensures more == os + [Outcome(n, err == NoError)]
      ensures Possible(p, more) && wire.sent == start + Sent(p, s, more)
      ensures if err == NoError && n == 4 + size && size == MAX then
                SoFar(p, more) && Start(|more|) == Start(|os|) + MAX <= |p|
                && data.arr[off + 4 + size..data.off + data.len] == p[Start(|more|)..]
              else
                History(p, more)
                && ReportOf(p, more) == if err == NoError then if n == 4 + size then Complete else Short
                                        else if n == 0 then NoWrite
                                        else Broken
    {
      hide SoFar, History, Sent, ReportOf, Possible, Header, Start;
      ghost var rest := data.arr[off + 4..data.off + data.len];
      n, err := WriteFrame(data, off, size);
      Turn(start, p, s, os, rest, Outcome(n, err == NoError));
      more := os + [Outcome(n, err == NoError)];
      assert rest[size..] == data.arr[off + 4 + size..data.off + data.len];
    }

    /** The frame loop. `os` records what its writes reported. */
    method SendFrames(data: Slice) returns (err: Option<Error>, ghost os: seq<Outcome>)
      requires data.Valid() && data.len >= 4
      modifies this, wire`sent, data.arr
      ensures canceled == old(canceled) && maxAllowedPacket == old(maxAllowedPacket) && status == old(status)
      ensures data.arr[..data.off] == old(data.arr[..data.off])
      ensures data.arr[data.off + data.len..] == old(data.arr[data.off + data.len..])
      ensures wire.reliable ==> err.None?
      ensures closed == (old(closed) || err == Some(InvalidConn))
      ensures err.None? ==> closed == old(closed) && affectedRows == old(affectedRows) && insertIds == old(insertIds)
                            && sequence == (old(sequence) + |os|) % 256
      ensures var payload := old(data.arr[data.off + 4..data.off + data.len]);
              History(payload, os) && err == WriteError(ReportOf(payload, os))
              && wire.sent == old(wire.sent) + Sent(payload, old(sequence), os)
    {
      hide SoFar, History, Sent, ReportOf, Possible, Start;
      var pktLen := data.len - 4;
      ghost var payload := data.arr[data.off + 4..data.off + data.len];
      os := [];
      NothingSent(wire.sent, payload, sequence);
      var off, len := data.off, data.len;
      ghost var end := data.off + data.len;
      while true
        invariant data.off <= off && off + len == end && 4 + pktLen == len
        invariant Start(|os|) <= |payload| && pktLen == |payload| - Start(|os|)
        invariant SoFar(payload, os) && Possible(payload, os)
        invariant data.arr[off + 4..end] == payload[Start(|os|)..]
        invariant wire.sent == old(wire.sent) + Sent(payload, old(sequence), os)
        invariant sequence == (old(sequence) + |os|) % 256
        invariant data.arr[..data.off] == old(data.arr[..data.off])
        invariant data.arr[end..] == old(data.arr[end..])
        invariant closed == old(closed) && canceled == old(canceled) && status == old(status)
        invariant maxAllowedPacket == old(maxAllowedPacket)
        invariant affectedRows == old(affectedRows) && insertIds == old(insertIds)
        decreases pktLen
      {
        var size := if pktLen >= MAX then MAX else pktLen;
        var n, e;
        n, e, os := SendOne(data, off, size, payload, old(sequence), old(wire.sent), os);
        if e == NoError && n == 4 + size {
          sequence := Next(sequence);
          if size != MAX {
            err := None;
            return;
          }
          pktLen := pktLen - size;
          off, len := off + size, len - size;
          continue;
        }
        if e == NoError {
          Cleanup();
        } else {
          if canceled.Some? {
            err := Some(CanceledBy(canceled.value));
            return;
          }
          // pktLen and the slice shrink together, so the second test always succeeds
          if n == 0 && pktLen == len - 4 {
            err := Some(BadConnNoWrite);
            return;
          }
          Cleanup();
        }
        err := Some(InvalidConn);
        return;
      }
    }
  }
}
