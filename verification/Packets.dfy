/** The packet layer: a payload is split into frames of at most 2^24-1 bytes, each behind a
    three-byte length and a wrapping sequence number. */
module Framing {
  import opened Bytes

  const MAX: int := 0xff_ffff

  function Next(s: Byte): Byte {
    (s + 1) % 256
  }

  function Header(len: nat, s: Byte): (h: seq<Byte>)
    ensures |h| == 4
  {
    LE(len, 3) + [s]
  }

  /** The frames of a payload on the wire, the first numbered `s`. */
  function Frames(p: seq<Byte>, s: Byte): (w: seq<Byte>)
    ensures |w| >= 4
  {
    if |p| < MAX then Header(|p|, s) + p
    else Header(MAX, s) + p[..MAX] + Frames(p[MAX..], Next(s))
  }

  /** The sequence number after the frames of a payload of `len` bytes. */
  function After(len: nat, s: Byte): Byte {
    if len < MAX then Next(s) else After(len - MAX, Next(s))
  }

  /** One number per frame, modulo 256: `len / MAX + 1` frames. */
  lemma {:induction false} AfterCountsFrames(len: nat, s: Byte)
    ensures After(len, s) == (s + len / MAX + 1) % 256
  {
    if len >= MAX {
      AfterCountsFrames(len - MAX, Next(s));
      OneFrameMore(len);
      CountOn(s, len / MAX);
    }
  }

  lemma OneFrameMore(len: nat)
    requires len >= MAX
    ensures (len - MAX) / MAX + 1 == len / MAX
  {
  }

  lemma CountOn(s: Byte, k: nat)
    ensures (Next(s) + k) % 256 == (s + k + 1) % 256
  {
  }

  /** Why no packet could be read: the stream ended, a frame had a later or an earlier number
      than expected, or a lone empty frame arrived. */
  datatype Failure = Lost | SyncMul | Sync | Malformed

  datatype Parsed = Packet(payload: seq<Byte>, rest: seq<Byte>, s: Byte) | Bad(why: Failure)

  datatype Framed = Frame(body: seq<Byte>, rest: seq<Byte>) | NoFrame(why: Failure)

  /** The frame at the head of a byte queue, if it is complete and numbered `s`. */
  function ParseFrame(q: seq<Byte>, s: Byte): (r: Framed)
    ensures r.Frame? ==> |q| == 4 + |r.body| + |r.rest|
  {
    if |q| < 4 then NoFrame(Lost)
    else
      var len := FromLE(q[..3]);
      if q[3] != s then NoFrame(if q[3] > s then SyncMul else Sync)
      else if |q| - 4 < len then NoFrame(Lost)
      else Frame(q[4..4 + len], q[4 + len..])
  }

  function Joined(prev: Option<seq<Byte>>, body: seq<Byte>): seq<Byte> {
    (if prev.Some? then prev.value else []) + body
  }

  /** What the packet reader makes of a byte queue, `prev` being the frames already joined. */
  function Parse(q: seq<Byte>, s: Byte, prev: Option<seq<Byte>>): (r: Parsed)
    requires prev.Some? ==> prev.value != []
    ensures r.Packet? ==> |r.payload| > 0 && |r.rest| + 4 <= |q|
    decreases |q|
  {
    match ParseFrame(q, s)
    case NoFrame(why) => Bad(why)
    case Frame(body, rest) =>
      if body == [] then
        if prev.None? then Bad(Malformed) else Packet(prev.value, rest, Next(s))
      else if |body| < MAX then Packet(Joined(prev, body), rest, Next(s))
      else Parse(rest, Next(s), Some(Joined(prev, body)))
  }

  lemma HeaderParses(len: nat, s: Byte, rest: seq<Byte>)
    requires len <= MAX
    ensures var q := Header(len, s) + rest;
            FromLE(q[..3]) == len && q[3] == s && q[4..] == rest
  {
    var q := Header(len, s) + rest;
    assert q[..3] == LE(len, 3);
    assert Pow256(2) == 0x1_0000 && Pow256(3) == 0x100_0000;
    FromLEInvertsLE(len, 3);
  }

  lemma FrameParses(body: seq<Byte>, s: Byte, prev: Option<seq<Byte>>, tail: seq<Byte>)
    requires |body| <= MAX && (prev.Some? ==> prev.value != []) && (prev.Some? || body != [])
    ensures Parse(Header(|body|, s) + body + tail, s, prev)
         == if |body| < MAX then Packet(Joined(prev, body), tail, Next(s))
            else Parse(tail, Next(s), Some(Joined(prev, body)))
  {
    var q := Header(|body|, s) + body + tail;
    assert q == Header(|body|, s) + (body + tail);
    HeaderParses(|body|, s, body + tail);
    assert q[4..4 + |body|] == body && q[4 + |body|..] == tail;
    if body == [] {
      assert Joined(prev, body) == prev.value;
    }
  }

  /** A frame with any other number is refused, whatever it holds: one with a later number as
      out of step by several, one with an earlier number as out of step. */
  lemma WrongNumberRefused(body: seq<Byte>, s: Byte, other: Byte, prev: Option<seq<Byte>>, tail: seq<Byte>)
    requires |body| <= MAX && other != s && (prev.Some? ==> prev.value != [])
    ensures Parse(Header(|body|, other) + body + tail, s, prev) == Bad(if other > s then SyncMul else Sync)
  {
    assert Header(|body|, other) + body + tail == Header(|body|, other) + (body + tail);
    HeaderParses(|body|, other, body + tail);
  }

  lemma JoinTwice(prev: Option<seq<Byte>>, p: seq<Byte>, at: nat)
    requires at <= |p|
    ensures Joined(Some(Joined(prev, p[..at])), p[at..]) == Joined(prev, p)
  {
    assert p == p[..at] + p[at..];
  }

  /** Split and reassemble: a nonempty payload comes back whole, whatever follows it on the
      wire, and both ends agree on the next sequence number. */
  lemma {:induction false} ParseInvertsFrames(p: seq<Byte>, s: Byte, prev: Option<seq<Byte>>, rest: seq<Byte>)
    requires prev.Some? ==> prev.value != []
    requires prev.Some? || p != []
    ensures Parse(Frames(p, s) + rest, s, prev) == Packet(Joined(prev, p), rest, After(|p|, s))
    decreases |p|
  {
    if |p| < MAX {
      FrameParses(p, s, prev, rest);
    } else {
      var head, more := p[..MAX], p[MAX..];
      var tail := Frames(more, Next(s)) + rest;
      assert Frames(p, s) + rest == Header(|head|, s) + head + tail;
      FrameParses(head, s, prev, tail);
      ParseInvertsFrames(more, Next(s), Some(Joined(prev, head)), rest);
      JoinTwice(prev, p, MAX);
    }
  }

  /** The round trip holds exactly for nonempty payloads: the reader rejects a lone empty frame. */
  lemma RoundTripIffNonempty(p: seq<Byte>, s: Byte, rest: seq<Byte>)
    ensures Parse(Frames(p, s) + rest, s, None) == Packet(p, rest, After(|p|, s)) <==> p != []
    ensures p == [] ==> Parse(Frames(p, s) + rest, s, None) == Bad(Malformed)
  {
    if p != [] {
      ParseInvertsFrames(p, s, None, rest);
      assert Joined(None, p) == p;
    } else {
      HeaderParses(0, s, rest);
      assert Frames(p, s) + rest == Header(0, s) + rest;
    }
  }

  /** The payload lengths of the frames written. */
  function FrameLengths(len: nat): (ls: seq<nat>)
    ensures |ls| > 0
  {
    if len < MAX then [len] else [MAX] + FrameLengths(len - MAX)
  }

  /** Every frame but the last is full and the last carries the remainder, so an empty trailer
      is written exactly for a multiple of 2^24-1. */
  lemma {:induction false} OnlyLastFrameIsShort(len: nat)
    ensures var ls := FrameLengths(len);
            && |ls| == len / MAX + 1
            && ls[|ls| - 1] == len % MAX
            && (forall i | 0 <= i < |ls| - 1 :: ls[i] == MAX)
            && (ls[|ls| - 1] == 0 <==> len % MAX == 0)
  {
    if len >= MAX {
      OnlyLastFrameIsShort(len - MAX);
      assert (len - MAX) / MAX + 1 == len / MAX;
    }
  }

  /** The wire form is those frames, consecutively numbered, around consecutive pieces. */
  function Cut(p: seq<Byte>, ls: seq<nat>, s: Byte): seq<Byte> {
    if ls == [] then []
    else if ls[0] > |p| then []
    else Header(ls[0], s) + p[..ls[0]] + Cut(p[ls[0]..], ls[1..], Next(s))
  }

  lemma {:induction false} FramesCutByLengths(p: seq<Byte>, s: Byte)
    ensures Frames(p, s) == Cut(p, FrameLengths(|p|), s)
    decreases |p|
  {
    var ls := FrameLengths(|p|);
    if |p| < MAX {
      assert ls[1..] == [];
      assert p[..|p|] == p;
    } else {
      FramesCutByLengths(p[MAX..], Next(s));
      assert ls[1..] == FrameLengths(|p| - MAX);
    }
  }

  // ---- Streams of packets ----

  ghost predicate Nonempty(ps: seq<seq<Byte>>) {
    forall i | 0 <= i < |ps| :: ps[i] != []
  }

  function Stream(ps: seq<seq<Byte>>, s: Byte): seq<Byte> {
    if ps == [] then [] else Frames(ps[0], s) + Stream(ps[1..], After(|ps[0]|, s))
  }

  function StreamEnd(ps: seq<seq<Byte>>, s: Byte): Byte {
    if ps == [] then s else StreamEnd(ps[1..], After(|ps[0]|, s))
  }

  /** The packets a byte queue holds, up to the first that cannot be read. */
  function Inbox(q: seq<Byte>, s: Byte): (ps: seq<seq<Byte>>)
    ensures Nonempty(ps)
    decreases |q|
  {
    match Parse(q, s, None)
    case Packet(p, rest, s') => [p] + Inbox(rest, s')
    case Bad(_) => []
  }

  /** What is left of a byte queue behind its last readable packet. */
  function Leftover(q: seq<Byte>, s: Byte): seq<Byte>
    decreases |q|
  {
    match Parse(q, s, None)
    case Packet(p, rest, s') => Leftover(rest, s')
    case Bad(_) => q
  }

  /** Why no further packet can be read there. */
  function Fate(q: seq<Byte>, s: Byte): Failure
    decreases |q|
  {
    match Parse(q, s, None)
    case Packet(p, rest, s') => Fate(rest, s')
    case Bad(why) => why
  }

  /** Taking one packet off the inbox. */
  lemma InboxStep(q: seq<Byte>, s: Byte)
    ensures Inbox(q, s) != [] <==> Parse(q, s, None).Packet?
    ensures match Parse(q, s, None)
            case Packet(p, rest, s') =>
              Inbox(q, s) != [] && Inbox(q, s)[0] == p && p != [] && Inbox(q, s)[1..] == Inbox(rest, s')
              && Leftover(q, s) == Leftover(rest, s') && Fate(q, s) == Fate(rest, s')
            case Bad(why) => Fate(q, s) == why
  {
  }

  lemma InboxOfFrames(p: seq<Byte>, s: Byte, tail: seq<Byte>)
    requires p != []
    ensures Inbox(Frames(p, s) + tail, s) == [p] + Inbox(tail, After(|p|, s))
    ensures Leftover(Frames(p, s) + tail, s) == Leftover(tail, After(|p|, s))
    ensures Fate(Frames(p, s) + tail, s) == Fate(tail, After(|p|, s))
  {
    ParseInvertsFrames(p, s, None, tail);
    assert Joined(None, p) == p;
  }

  lemma StreamSplit(ps: seq<seq<Byte>>, s: Byte, rest: seq<Byte>)
    requires ps != []
    ensures var s' := After(|ps[0]|, s);
            && Stream(ps, s) + rest == Frames(ps[0], s) + (Stream(ps[1..], s') + rest)
            && StreamEnd(ps, s) == StreamEnd(ps[1..], s')
  {
    var s' := After(|ps[0]|, s);
    Associate(Frames(ps[0], s), Stream(ps[1..], s'), rest);
  }

  /** A reader facing a stream of packets receives those packets, then what follows. */
  lemma {:induction false} InboxOfStream(ps: seq<seq<Byte>>, s: Byte, rest: seq<Byte>)
    requires Nonempty(ps)
    ensures Inbox(Stream(ps, s) + rest, s) == ps + Inbox(rest, StreamEnd(ps, s))
    ensures Leftover(Stream(ps, s) + rest, s) == Leftover(rest, StreamEnd(ps, s))
    ensures Fate(Stream(ps, s) + rest, s) == Fate(rest, StreamEnd(ps, s))
    decreases |ps|
  {
    if ps == [] {
      assert Stream(ps, s) + rest == rest;
    } else {
      StreamSplit(ps, s, rest);
      InboxOfFrames(ps[0], s, Stream(ps[1..], After(|ps[0]|, s)) + rest);
      InboxOfStream(ps[1..], After(|ps[0]|, s), rest);
      HeadTail(ps);
      Associate([ps[0]], ps[1..], Inbox(rest, StreamEnd(ps, s)));
    }
  }

  /** The frames of a packet, cut off anywhere, read as a lost connection. */
  lemma {:induction false} CutOffIsLost(p: seq<Byte>, s: Byte, prev: Option<seq<Byte>>, n: nat)
    requires prev.Some? ==> prev.value != []
    requires n < |Frames(p, s)|
    ensures Parse(Frames(p, s)[..n], s, prev) == Bad(Lost)
    decreases |p|
  {
    var len := if |p| < MAX then |p| else MAX;
    var q := Frames(p, s)[..n];
    if n >= 4 {
      CutHeader(p, s, n);
      HeaderParses(len, s, q[4..]);
      assert q == Header(len, s) + q[4..];
      if |p| >= MAX && n >= 4 + MAX {
        CutBody(p, s, n);
        CutOffIsLost(p[MAX..], Next(s), Some(Joined(prev, p[..MAX])), n - 4 - MAX);
        assert q[4..4 + MAX] == p[..MAX];
      }
    }
  }

  lemma CutHeader(p: seq<Byte>, s: Byte, n: nat)
    requires 4 <= n < |Frames(p, s)|
    ensures Frames(p, s)[..n][..4] == Header(if |p| < MAX then |p| else MAX, s)
  {
    hide Header;
  }

  lemma CutBody(p: seq<Byte>, s: Byte, n: nat)
    requires |p| >= MAX && 4 + MAX <= n < |Frames(p, s)|
    ensures var q := Frames(p, s)[..n];
            q[4..4 + MAX] == p[..MAX] && q[4 + MAX..] == Frames(p[MAX..], Next(s))[..n - 4 - MAX]
            && n - 4 - MAX < |Frames(p[MAX..], Next(s))|
  {
    hide Header;
    assert Frames(p, s) == Header(MAX, s) + p[..MAX] + Frames(p[MAX..], Next(s));
  }

  /** A stream that breaks off in the middle of a packet: the packets before it can be read,
      then the connection is lost. */
  lemma BrokenStream(ps: seq<seq<Byte>>, p: seq<Byte>, s: Byte, n: nat)
    requires Nonempty(ps) && n < |Frames(p, StreamEnd(ps, s))|
    ensures var q := Stream(ps, s) + Frames(p, StreamEnd(ps, s))[..n];
            Inbox(q, s) == ps && Fate(q, s) == Lost
  {
    var tail := Frames(p, StreamEnd(ps, s))[..n];
    CutOffIsLost(p, StreamEnd(ps, s), None, n);
    assert Inbox(tail, StreamEnd(ps, s)) == [] && Fate(tail, StreamEnd(ps, s)) == Lost;
    hide Inbox, Fate, Stream, StreamEnd, Frames, Parse;
    InboxOfStream(ps, s, tail);
    assert ps + [] == ps;
  }
}
