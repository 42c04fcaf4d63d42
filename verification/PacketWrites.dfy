/** What goes out when a packet is written frame by frame over a connection that may fail, and
    what may be reported about it. */
module PacketWrites {
  import opened Bytes
  import opened Framing

  /** What one Write of the connection reports. */
  datatype Outcome = Outcome(n: nat, ok: bool)

  /** How the frame loop ends: everything written, a write cut short without an error, or an
      error after nothing or after something of the last frame. */
  datatype Report = Complete | Short | NoWrite | Broken

  /** Where frame number `i` of a payload starts. */
  function Start(i: nat): nat {
    i * MAX
  }

  function FrameLen(p: seq<Byte>, i: nat): nat
    requires Start(i) <= |p|
  {
    if |p| - Start(i) >= MAX then MAX else |p| - Start(i)
  }

  /** Frame number `i` of a payload. */
  function FrameAt(p: seq<Byte>, s: Byte, i: nat): (f: seq<Byte>)
    requires Start(i) <= |p|
    ensures |f| == 4 + FrameLen(p, i)
  {
    Header(FrameLen(p, i), (s + i) % 256) + p[Start(i)..Start(i) + FrameLen(p, i)]
  }

  /** Outcome `i` belongs to frame `i`. */
  predicate Possible(p: seq<Byte>, os: seq<Outcome>) {
    forall i | 0 <= i < |os| :: Start(i) <= |p| && os[i].n <= 4 + FrameLen(p, i)
  }

  /** The frame was written whole and another one follows it. */
  predicate GoesOn(p: seq<Byte>, i: nat, o: Outcome)
    requires Start(i) <= |p|
  {
    o.ok && o.n == 4 + FrameLen(p, i) && FrameLen(p, i) == MAX
  }

  /** Frames that were all written whole, with the last one still to come. */
  predicate SoFar(p: seq<Byte>, os: seq<Outcome>) {
    Start(|os|) <= |p| && Possible(p, os) && forall i | 0 <= i < |os| :: GoesOn(p, i, os[i])
  }

  /** A run of the loop: it ends with the first outcome behind which nothing follows. */
  predicate History(p: seq<Byte>, os: seq<Outcome>) {
    os != [] && SoFar(p, os[..|os| - 1]) && Possible(p, os) && !GoesOn(p, |os| - 1, os[|os| - 1])
  }

  /** The bytes that have gone out. */
  function Sent(p: seq<Byte>, s: Byte, os: seq<Outcome>): seq<Byte>
    requires Possible(p, os)
  {
    if os == [] then []
    else Sent(p, s, os[..|os| - 1]) + FrameAt(p, s, |os| - 1)[..os[|os| - 1].n]
  }

  function ReportOf(p: seq<Byte>, os: seq<Outcome>): Report
    requires History(p, os)
  {
    var last := os[|os| - 1];
    if last.ok then if last.n == 4 + FrameLen(p, |os| - 1) then Complete else Short
    else if last.n == 0 then NoWrite
    else Broken
  }

  // ---- Steps of the loop ----

  /** How much of what is left goes into the next frame. */
  function Piece(rest: seq<Byte>): nat {
    if |rest| >= MAX then MAX else |rest|
  }

  lemma NothingSent(before: seq<Byte>, p: seq<Byte>, s: Byte)
    ensures SoFar(p, []) && Possible(p, []) && Start(0) == 0 && before + Sent(p, s, []) == before && p[0..] == p
  {
  }

  lemma FrameIs(p: seq<Byte>, s: Byte, i: nat, rest: seq<Byte>)
    requires Start(i) <= |p| && rest == p[Start(i)..]
    ensures FrameLen(p, i) == Piece(rest)
    ensures FrameAt(p, s, i) == Header(FrameLen(p, i), (s + i) % 256) + rest[..FrameLen(p, i)]
  {
    assert p[Start(i)..Start(i) + FrameLen(p, i)] == rest[..FrameLen(p, i)];
  }

  /** One turn: `rest` is what is left of the payload, `o` what its next frame's write reports. */
  lemma Turn(before: seq<Byte>, p: seq<Byte>, s: Byte, os: seq<Outcome>, rest: seq<Byte>, o: Outcome)
    requires SoFar(p, os) && rest == p[Start(|os|)..] && o.n <= 4 + Piece(rest)
    ensures Possible(p, os + [o])
    ensures before + Sent(p, s, os + [o])
         == before + Sent(p, s, os) + (Header(Piece(rest), (s + |os|) % 256) + rest[..Piece(rest)])[..o.n]
    ensures if o.ok && o.n == 4 + Piece(rest) && Piece(rest) == MAX then
              SoFar(p, os + [o]) && Start(|os| + 1) == Start(|os|) + MAX <= |p| && rest[MAX..] == p[Start(|os| + 1)..]
            else
              History(p, os + [o])
              && ReportOf(p, os + [o]) == if o.ok then if o.n == 4 + Piece(rest) then Complete else Short
                                          else if o.n == 0 then NoWrite
                                          else Broken
  {
    hide Header;
    FrameIs(p, s, |os|, rest);
    TurnShape(p, os, o);
    TurnBytes(before, p, s, os, o);
  }

  lemma TurnShape(p: seq<Byte>, os: seq<Outcome>, o: Outcome)
    requires SoFar(p, os) && o.n <= 4 + FrameLen(p, |os|)
    ensures Possible(p, os + [o])
    ensures if GoesOn(p, |os|, o) then SoFar(p, os + [o]) else History(p, os + [o])
  {
    assert (os + [o])[..|os|] == os;
  }

  lemma TurnBytes(before: seq<Byte>, p: seq<Byte>, s: Byte, os: seq<Outcome>, o: Outcome)
    requires SoFar(p, os) && o.n <= 4 + FrameLen(p, |os|) && Possible(p, os + [o])
    ensures before + Sent(p, s, os + [o]) == before + Sent(p, s, os) + FrameAt(p, s, |os|)[..o.n]
  {
    hide FrameAt;
    assert (os + [o])[..|os|] == os;
    Associate(before, Sent(p, s, os), FrameAt(p, s, |os|)[..o.n]);
  }

  lemma FramesStep(p: seq<Byte>, s: Byte, i: nat)
    requires Start(i) + MAX <= |p|
    ensures Frames(p[Start(i)..], (s + i) % 256) == FrameAt(p, s, i) + Frames(p[Start(i + 1)..], (s + i + 1) % 256)
    ensures After(|p| - Start(i), (s + i) % 256) == After(|p| - Start(i + 1), (s + i + 1) % 256)
  {
    FrameIs(p, s, i, p[Start(i)..]);
    assert p[Start(i)..][MAX..] == p[Start(i + 1)..];
  }

  /** What has gone out and what is still to go are the frames of the payload. */
  lemma {:induction false} SentAndRest(p: seq<Byte>, s: Byte, os: seq<Outcome>)
    requires SoFar(p, os)
    ensures Frames(p, s) == Sent(p, s, os) + Frames(p[Start(|os|)..], (s + |os|) % 256)
    ensures After(|p|, s) == After(|p| - Start(|os|), (s + |os|) % 256)
    decreases |os|
  {
    hide FrameAt, Frames, After;
    if os == [] {
      assert p[0..] == p;
    } else {
      var i := |os| - 1;
      assert GoesOn(p, i, os[i]) && SoFar(p, os[..i]);
      SentAndRest(p, s, os[..i]);
      FramesStep(p, s, i);
      Associate(Sent(p, s, os[..i]), FrameAt(p, s, i), Frames(p[Start(|os|)..], (s + |os|) % 256));
    }
  }

  lemma NextAdds(s: Byte, i: nat)
    ensures Next((s + i) % 256) == (s + i + 1) % 256
  {
  }

  /** A frame is a prefix of what is left, and all of it if nothing follows. */
  lemma FrameOfRest(p: seq<Byte>, s: Byte, i: nat)
    requires Start(i) <= |p|
    ensures FrameAt(p, s, i) <= Frames(p[Start(i)..], (s + i) % 256)
    ensures FrameLen(p, i) < MAX ==>
              FrameAt(p, s, i) == Frames(p[Start(i)..], (s + i) % 256)
              && After(|p| - Start(i), (s + i) % 256) == (s + i + 1) % 256
  {
    hide Header, Start;
    FrameIs(p, s, i, p[Start(i)..]);
    NextAdds(s, i);
    if FrameLen(p, i) < MAX {
      assert p[Start(i)..][..FrameLen(p, i)] == p[Start(i)..];
    }
  }

  /** The last frame, or the part of it that went out. */
  lemma LastFrame(p: seq<Byte>, s: Byte, os: seq<Outcome>)
    requires History(p, os)
    ensures os != []
    ensures var front := os[..|os| - 1];
            SoFar(p, front) && Start(|front|) <= |p| && Possible(p, front)
            && Sent(p, s, os) == Sent(p, s, front) + FrameAt(p, s, |os| - 1)[..os[|os| - 1].n]
            && os[|os| - 1].n <= |FrameAt(p, s, |os| - 1)|
    ensures ReportOf(p, os).Complete? ==>
              FrameLen(p, |os| - 1) < MAX && os[|os| - 1].n == |FrameAt(p, s, |os| - 1)|
  {
    hide Start, FrameAt;
  }

  lemma PrefixOfMore(a: seq<Byte>, x: seq<Byte>, y: seq<Byte>, n: nat)
    requires x <= y && n <= |x|
    ensures a + x[..n] <= a + y
  {
  }

  lemma SentIsPrefix(p: seq<Byte>, s: Byte, os: seq<Outcome>)
    requires History(p, os)
    ensures Sent(p, s, os) <= Frames(p, s)
  {
    hide Sent, Frames, FrameAt, After, History, SoFar, ReportOf;
    LastFrame(p, s, os);
    var i := |os| - 1;
    FrameOfRest(p, s, i);
    SentAndRest(p, s, os[..i]);
    PrefixOfMore(Sent(p, s, os[..i]), FrameAt(p, s, i), Frames(p[Start(i)..], (s + i) % 256), os[i].n);
  }

  /** A run that ends well has sent exactly the frames and used one number for each. */
  lemma CompleteSendsFrames(p: seq<Byte>, s: Byte, os: seq<Outcome>)
    requires History(p, os) && ReportOf(p, os).Complete?
    ensures Sent(p, s, os) == Frames(p, s) && After(|p|, s) == (s + |os|) % 256
  {
    hide Sent, Frames, FrameAt, After, History, SoFar, ReportOf;
    LastFrame(p, s, os);
    FrameOfRest(p, s, |os| - 1);
    SentAndRest(p, s, os[..|os| - 1]);
  }

  lemma {:induction false} WholeFramesAreOut(p: seq<Byte>, s: Byte, os: seq<Outcome>)
    requires SoFar(p, os)
    ensures |Sent(p, s, os)| == |os| * (4 + MAX)
    decreases |os|
  {
    if os != [] {
      var front := os[..|os| - 1];
      assert forall i | 0 <= i < |front| :: front[i] == os[i];
      WholeFramesAreOut(p, s, front);
      assert GoesOn(p, |os| - 1, os[|os| - 1]);
    }
  }

  /** A report that nothing was written is right if and only if it comes with the first frame. */
  lemma NoWriteIsRightIff(p: seq<Byte>, s: Byte, os: seq<Outcome>)
    requires History(p, os) && ReportOf(p, os).NoWrite?
    ensures Sent(p, s, os) == [] <==> |os| == 1
  {
    var front := os[..|os| - 1];
    WholeFramesAreOut(p, s, front);
    assert Sent(p, s, os) == Sent(p, s, front) + [];
  }

  lemma OneFrameOnly(p: seq<Byte>, s: Byte, os: seq<Outcome>)
    requires History(p, os) && ReportOf(p, os).NoWrite? && |p| < MAX
    ensures Sent(p, s, os) == []
  {
    assert |os| == 1;
    NoWriteIsRightIff(p, s, os);
  }

  /** Over all runs of the loop, every such report is right if and only if the payload fits in
      one frame. */
  lemma NoWriteIsAlwaysRightIff(p: seq<Byte>, s: Byte)
    ensures (forall os: seq<Outcome> :: History(p, os) && ReportOf(p, os).NoWrite? ==> Sent(p, s, os) == [])
            <==> |p| < MAX
  {
    if |p| < MAX {
      forall os: seq<Outcome> | History(p, os) && ReportOf(p, os).NoWrite?
        ensures Sent(p, s, os) == []
      {
        OneFrameOnly(p, s, os);
      }
    } else {
      var os := SecondFrameFails();
      assert os[..1] == [Outcome(4 + MAX, true)];
      assert History(p, os) && ReportOf(p, os).NoWrite?;
      NoWriteIsRightIff(p, s, os);
    }
  }

  /** The first frame goes out whole, and the second Write fails at once. */
  function SecondFrameFails(): seq<Outcome> {
    [Outcome(4 + MAX, true), Outcome(0, false)]
  }
}
