/** COM_STMT_SEND_LONG_DATA: an argument sent in chunks out of one array. */
module LongData {
  import opened Bytes
  import opened Buffers
  import opened Connections
  import Framing

  const COM_STMT_SEND_LONG_DATA: Byte := 0x18
  const DATA_OFFSET: nat := 1 + 4 + 2

  /** Command, statement id, parameter number, then a piece of the argument. */
  function LongBody(id: nat, param: nat, chunk: seq<Byte>): (b: seq<Byte>)
    ensures |b| == DATA_OFFSET + |chunk|
  {
    [COM_STMT_SEND_LONG_DATA] + LE(id, 4) + LE(param, 2) + chunk
  }

  /** Room for the argument in one packet: one byte less than the limit, less the header. */
  function ChunkSize(maxAllowedPacket: int): int {
    maxAllowedPacket - 1 - DATA_OFFSET
  }

  /** How much of the packet is filled when `argLen` bytes are left: all of it but the last time. */
  function PacketLength(maxAllowedPacket: int, argLen: nat): int {
    if DATA_OFFSET + argLen < maxAllowedPacket - 1 then DATA_OFFSET + argLen else maxAllowedPacket - 1
  }

  function Least(a: nat, b: nat): nat {
    if a < b then a else b
  }

  /** The pieces of an argument, none longer than `size`. */
  function Chunks(arg: seq<Byte>, size: nat): (cs: seq<seq<Byte>>)
    requires size > 0
  {
    if arg == [] then [] else [arg[..Least(|arg|, size)]] + Chunks(arg[Least(|arg|, size)..], size)
  }

  function Concat(cs: seq<seq<Byte>>): seq<Byte> {
    if cs == [] then [] else cs[0] + Concat(cs[1..])
  }

  /** The pieces put together are the argument; every packet stays below the limit, and all but
      the last fill it. */
  lemma {:induction false} ChunksMakeArgument(arg: seq<Byte>, maxAllowedPacket: int, id: nat, param: nat)
    requires ChunkSize(maxAllowedPacket) > 0
    ensures var cs := Chunks(arg, ChunkSize(maxAllowedPacket));
            && Concat(cs) == arg
            && (forall i | 0 <= i < |cs| :: 0 < |cs[i]| && |LongBody(id, param, cs[i])| < maxAllowedPacket)
            && (forall i | 0 <= i < |cs| - 1 :: |LongBody(id, param, cs[i])| == maxAllowedPacket - 1)
    decreases |arg|
  {
    var n := Least(|arg|, ChunkSize(maxAllowedPacket));
    if arg != [] {
      ChunksMakeArgument(arg[n..], maxAllowedPacket, id, param);
      TakeDrop(arg, n);
      var cs := Chunks(arg, ChunkSize(maxAllowedPacket));
      var more := Chunks(arg[n..], ChunkSize(maxAllowedPacket));
      assert cs[0] == arg[..n] && cs[1..] == more;
      assert forall i | 0 < i < |cs| :: cs[i] == more[i - 1];
    }
  }

  /** The commands on the wire, each numbered from 0. */
  function LongFrames(id: nat, param: nat, cs: seq<seq<Byte>>): seq<Byte> {
    if cs == [] then []
    else Framing.Frames(LongBody(id, param, cs[0]), 0) + LongFrames(id, param, cs[1..])
  }

  /** The header of one command, written over the bytes before the piece. */
  method PutLongHeader(data: array<Byte>, off: nat, id: nat, param: nat)
    requires off + 4 + DATA_OFFSET <= data.Length
    modifies data
    ensures data[off + 4..off + 4 + DATA_OFFSET] == [COM_STMT_SEND_LONG_DATA] + LE(id, 4) + LE(param, 2)
    ensures data[off + 4 + DATA_OFFSET..] == old(data[off + 4 + DATA_OFFSET..])
  {
    LE4(id);
    LE2(param);
    data[off + 4] := COM_STMT_SEND_LONG_DATA;
    data[off + 5], data[off + 6] := id % 256, id / 0x100 % 256;
    data[off + 7], data[off + 8] := id / 0x1_0000 % 256, id / 0x100_0000 % 256;
    data[off + 9], data[off + 10] := param % 256, param / 0x100 % 256;
  }

  lemma LE2(n: nat)
    ensures LE(n, 2) == [n % 256, n / 0x100 % 256]
  {
    assert LE(n / 256, 1) == [n / 256 % 256] + LE(n / 256 / 256, 0);
  }

  /** One command: the header behind the room for a frame header, then the packet. */
  method SendPiece(mc: MysqlConn, data: array<Byte>, off: nat, n: nat, id: nat, param: nat) returns (err: Option<Error>)
    requires mc.Valid() && off + 4 + DATA_OFFSET + n <= data.Length
    modifies mc, mc.wire`sent, data
    ensures mc.Valid() && mc.maxAllowedPacket == old(mc.maxAllowedPacket) && mc.canceled == old(mc.canceled)
    ensures var left := old(data[off + 4 + DATA_OFFSET..]);
            (err.None? ==> mc.wire.sent == old(mc.wire.sent) + Framing.Frames(LongBody(id, param, left[..n]), 0))
            && data[off + 4 + DATA_OFFSET + n..] == left[n..]
    ensures err == Some(PktTooLarge) ==> DATA_OFFSET + n > mc.maxAllowedPacket
    ensures mc.wire.reliable && DATA_OFFSET + n <= mc.maxAllowedPacket ==> err.None?
  {
    hide LongBody, Framing.Frames, Framing.After;
    ghost var left := data[off + 4 + DATA_OFFSET..];
    mc.sequence := 0;
    PutLongHeader(data, off, id, param);
    LongWindow(data[..], off, n, id, param, left);
    err := mc.WritePacket(Slice(data, off, 4 + DATA_OFFSET + n));
  }

  /** Sends `arg` in pieces out of one array: the header of each piece, and the frame headers
      inside it, overwrite only what has been sent already. The limit must leave room for
      data, or the loop makes no progress. */
  method WriteCommandLongData(mc: MysqlConn, id: nat, param: nat, arg: seq<Byte>) returns (err: Option<Error>)
    requires mc.Valid() && mc.maxAllowedPacket > 8
    modifies mc, mc.wire`sent
    ensures mc.Valid() && mc.maxAllowedPacket == old(mc.maxAllowedPacket) && mc.canceled == old(mc.canceled)
    ensures err.None? ==> mc.wire.sent == old(mc.wire.sent)
                                         + LongFrames(id, param, Chunks(arg, ChunkSize(mc.maxAllowedPacket)))
                          && mc.sequence == 0
    ensures err != Some(PktTooLarge) && (mc.wire.reliable ==> err.None?)
  {
    hide LongFrames, LongBody, Framing.Frames, Framing.After;
    var maxLen := mc.maxAllowedPacket - 1;
    var pktLen := maxLen;
    var data := new Byte[4 + 1 + 4 + 2 + |arg|];
    Put(data, 4 + DATA_OFFSET, arg);
    assert data[4 + DATA_OFFSET..] == arg;
    ghost var size := ChunkSize(mc.maxAllowedPacket);
    ghost var goal := mc.wire.sent + LongFrames(id, param, Chunks(arg, size));
    ghost var left := arg;
    var off, argLen := 0, |arg|;
    while argLen > 0
      invariant mc.Valid() && mc.maxAllowedPacket == old(mc.maxAllowedPacket) && mc.canceled == old(mc.canceled)
      invariant 0 <= argLen == |left| && off + 4 + DATA_OFFSET + argLen == data.Length
      invariant data[off + 4 + DATA_OFFSET..] == left
      invariant argLen > 0 ==> pktLen == maxLen
      invariant mc.wire.sent + LongFrames(id, param, Chunks(left, size)) == goal
      decreases argLen
    {
      if DATA_OFFSET + argLen < maxLen {
        pktLen := DATA_OFFSET + argLen;
      }
      assert pktLen == PacketLength(mc.maxAllowedPacket, argLen);
      ghost var n := Least(argLen, size);
      ProgressIffLimitExceedsEight(mc.maxAllowedPacket, argLen);
      LongFramesStep(mc.wire.sent, id, param, left, size);
      err := SendPiece(mc, data, off, pktLen - DATA_OFFSET, id, param);
      if err.Some? { return; }
      left := left[n..];
      off := off + pktLen - DATA_OFFSET;
      argLen := argLen - (pktLen - DATA_OFFSET);
    }
    mc.sequence := 0;
    LongFramesEnd(id, param, size);
    assert mc.wire.sent + [] == mc.wire.sent;
    err := None;
  }

  lemma LongFramesEnd(id: nat, param: nat, size: nat)
    requires size > 0
    ensures LongFrames(id, param, Chunks([], size)) == []
  {
  }

  lemma LongFramesStep(sent: seq<Byte>, id: nat, param: nat, left: seq<Byte>, size: nat)
    requires size > 0 && left != []
    ensures var n := Least(|left|, size);
            sent + LongFrames(id, param, Chunks(left, size))
            == sent + Framing.Frames(LongBody(id, param, left[..n]), 0) + LongFrames(id, param, Chunks(left[n..], size))
  {
    var n := Least(|left|, size);
    var cs := Chunks(left, size);
    assert cs[1..] == Chunks(left[n..], size);
    Associate(sent, Framing.Frames(LongBody(id, param, left[..n]), 0), LongFrames(id, param, Chunks(left[n..], size)));
  }

  /** The window handed to the packet writer holds the body, and the rest lies behind it. */
  lemma LongWindow(a: seq<Byte>, off: nat, n: nat, id: nat, param: nat, left: seq<Byte>)
    requires off + 4 + DATA_OFFSET <= |a| && n <= |left|
    requires a[off + 4..off + 4 + DATA_OFFSET] == [COM_STMT_SEND_LONG_DATA] + LE(id, 4) + LE(param, 2)
    requires a[off + 4 + DATA_OFFSET..] == left
    ensures off + 4 + DATA_OFFSET + n <= |a|
    ensures a[off..off + 4 + DATA_OFFSET + n][4..] == LongBody(id, param, left[..n])
    ensures a[off + 4 + DATA_OFFSET + n..] == left[n..]
  {
    var at := off + 4 + DATA_OFFSET;
    assert a[at..at + n] == a[at..][..n];
    assert a[at + n..] == a[at..][n..];
    assert a[off..at + n][4..] == a[off + 4..at] + a[at..at + n];
  }

  /** Each turn gets the loop closer to its end exactly when the limit exceeds eight bytes. */
  lemma ProgressIffLimitExceedsEight(maxAllowedPacket: int, argLen: nat)
    requires argLen > 0
    ensures 0 <= argLen - (PacketLength(maxAllowedPacket, argLen) - DATA_OFFSET) < argLen <==> maxAllowedPacket > 8
  {
  }
}
