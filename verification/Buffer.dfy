/** The network connection and the double-buffered reader on top of it. */
module Buffers {
  import opened Bytes

  const DEFAULT_BUF_SIZE := 4096
  const MAX_CACHED_BUF_SIZE := 256 * 1024
  const MAX_PACKET_SIZE := 0xff_ffff

  datatype IoError = NoError | Eof | Failed

  /** A network connection. `incoming` holds every byte the peer still delivers before the
      stream ends or breaks; how a Read cuts it into chunks is left open. A reliable one takes
      everything that is written to it. */
  class Wire {
    const reliable: bool
    var incoming: seq<Byte>
    var sent: seq<Byte>

    constructor (incoming: seq<Byte>, reliable: bool)
      ensures this.incoming == incoming && sent == [] && this.reliable == reliable
    {
      this.incoming, sent, this.reliable := incoming, [], reliable;
    }

    /** Fills a nonempty part of dst[from..]; end-of-file may come with the last bytes. */
    method Read(dst: array<Byte>, from: nat) returns (n: nat, err: IoError)
      requires from < dst.Length
      modifies this`incoming, dst
      ensures n <= |old(incoming)| && from + n <= dst.Length
      ensures incoming == old(incoming)[n..]
      ensures dst[..from] == old(dst[..from]) && dst[from..from + n] == old(incoming)[..n]
      ensures err == NoError ==> n > 0
      ensures err != NoError ==> incoming == [] && (err == Failed ==> n == 0)
    {
      n, err := 0, NoError;
      if incoming == [] {
        if * { err := Eof; } else { err := Failed; }
        return;
      }
      var most := if |incoming| <= dst.Length - from then |incoming| else dst.Length - from;
      n :| 0 < n <= most;
      forall i | 0 <= i < n {
        dst[from + i] := incoming[i];
      }
      incoming := incoming[n..];
      if incoming == [] {
        if * { err := Eof; }
      }
    }

    /** Accepts a prefix of `data`; an incomplete write may or may not report an error. */
    method Write(data: seq<Byte>) returns (n: nat, err: IoError)
      modifies this`sent
      ensures n <= |data| && sent == old(sent) + data[..n]
      ensures reliable ==> n == |data| && err == NoError
    {
      n :| n <= |data| && (reliable ==> n == |data|);
      sent := sent + data[..n];
      err := NoError;
      if !reliable {
        if * { err := Failed; }
      }
    }
  }

  /** A Go byte slice: a window of an array; its capacity runs to the end of the array. */
  datatype Slice = Slice(arr: array<Byte>, off: nat, len: nat) {
    ghost predicate Valid() {
      off + len <= arr.Length
    }

    function Cap(): int {
      arr.Length - off
    }

    function Bytes(): seq<Byte>
      requires Valid()
      reads arr
    {
      arr[off..off + len]
    }
  }

  /** Go's append: in place when the capacity allows, else in a new and larger array. */
  method Append(s: Slice, data: seq<Byte>) returns (r: Slice)
    requires s.Valid()
    modifies s.arr
    ensures r.Valid() && r.Bytes() == old(s.Bytes()) + data
    ensures s.len + |data| <= s.Cap() ==> r == Slice(s.arr, s.off, s.len + |data|)
    ensures s.len + |data| > s.Cap() ==> fresh(r.arr) && r.off == 0 && r.Cap() > s.Cap()
    ensures forall i | 0 <= i < s.arr.Length && !(s.off + s.len <= i < s.off + r.len) :: s.arr[i] == old(s.arr[i])
    ensures s.len + |data| > s.Cap() ==> s.arr[..] == old(s.arr[..])
  {
    if s.len + |data| <= s.Cap() {
      Put(s.arr, s.off + s.len, data);
      r := Slice(s.arr, s.off, s.len + |data|);
      assert s.arr[s.off..s.off + s.len] == s.arr[..s.off + s.len][s.off..];
      assert r.Bytes() == s.arr[s.off..s.off + s.len] + s.arr[s.off + s.len..s.off + r.len];
    } else {
      var grown: nat :| grown >= s.len + |data|;
      var a := new Byte[grown];
      Put(a, 0, s.Bytes());
      Put(a, s.len, data);
      r := Slice(a, 0, s.len + |data|);
      assert r.Bytes() == a[..s.len] + a[s.len..s.len + |data|];
    }
  }

  /** Go's copy(arr[at:], data). */
  method Put(arr: array<Byte>, at: nat, data: seq<Byte>)
    requires at + |data| <= arr.Length
    modifies arr
    ensures arr[at..at + |data|] == data
    ensures arr[..at] == old(arr[..at]) && arr[at + |data|..] == old(arr[at + |data|..])
    ensures forall i | 0 <= i < arr.Length && !(at <= i < at + |data|) :: arr[i] == old(arr[i])
  {
    forall i | 0 <= i < |data| {
      arr[at + i] := data[i];
    }
  }

  datatype Op = Read(need: nat) | Flipping | TakeAndFill(size: nat, byte: Byte) | Storing(size: nat)

  /** Go's copy(dest[:n], src[from:]), which allows the two to overlap. */
  method Copy(dest: array<Byte>, src: array<Byte>, from: nat, n: nat)
    requires n <= dest.Length && from + n <= src.Length
    modifies dest
    ensures dest[..n] == old(src[from..from + n])
    ensures dest[n..] == old(dest[n..])
  {
    forall i | 0 <= i < n {
      dest[i] := src[from + i];
    }
  }

  /** The read buffer; a nil slot is an array of length 0. Its abstract value is Queue(): the
      unread bytes followed by those still to come. */
  class Buffer {
    const nc: Wire
    var buf: array<Byte>
    var idx: nat
    var length: nat
    var dbuf0: array<Byte>
    var dbuf1: array<Byte>
    var flipcnt: nat

    /** dbuf[flipcnt & 1] after `flips` flips. */
    function Slot(flips: nat): array<Byte>
      reads this
    {
      if flips % 2 == 0 then dbuf0 else dbuf1
    }

    ghost predicate Valid()
      reads this
    {
      && idx + length <= buf.Length
      && DEFAULT_BUF_SIZE <= buf.Length
      && dbuf0 != dbuf1
      && (dbuf0.Length == 0 || DEFAULT_BUF_SIZE <= dbuf0.Length)
      && (dbuf1.Length == 0 || DEFAULT_BUF_SIZE <= dbuf1.Length)
    }

    /** Everything an operation may write to or replace. */
    ghost function Repr(): set<object>
      reads this
    {
      {this, buf, dbuf0, dbuf1}
    }

    function Contents(): seq<Byte>
      requires Valid()
      reads this, buf
    {
      buf[idx..idx + length]
    }

    ghost function Queue(): seq<Byte>
      requires Valid()
      reads this, buf, nc
    {
      Contents() + nc.incoming
    }

    constructor (nc: Wire)
      ensures Valid() && this.nc == nc && length == 0 && fresh(Repr())
    {
      var fg := new Byte[DEFAULT_BUF_SIZE];
      this.nc := nc;
      buf, idx, length := fg, 0, 0;
      dbuf0, dbuf1, flipcnt := fg, new Byte[0], 0;
    }

    /** A flip has been asked for and no fill has happened since: the active array is the one
        that one more flip would make the target again. */
    ghost predicate FlipPending()
      reads this
    {
      buf == Slot(flipcnt + 1)
    }

    method Flip()
      requires Valid()
      modifies this`flipcnt
      ensures Valid() && flipcnt == old(flipcnt) + 1 && Queue() == old(Queue())
      ensures Slot(flipcnt) == buf <==> old(FlipPending())
    {
      flipcnt := flipcnt + 1;
    }

    /** The first half of a fill: choose the target array and move the unread bytes to its
        start. The target is the slot that `flipcnt` selects, replaced if it is too small. */
    method Retarget(need: nat)
      requires Valid() && length < need
      modifies this`buf, this`idx, this`dbuf0, this`dbuf1, Slot(flipcnt)
      ensures Valid() && (buf in old(Repr()) || fresh(buf)) && !FlipPending()
      ensures dbuf0 == old(dbuf0) || (dbuf0 == buf && fresh(buf))
      ensures dbuf1 == old(dbuf1) || (dbuf1 == buf && fresh(buf))
      ensures length == old(length) && Contents() == old(Contents()) && idx == 0 && need <= buf.Length
      ensures buf == old(Slot(flipcnt)) || fresh(buf)
      ensures need <= old(Slot(flipcnt)).Length ==> buf == old(Slot(flipcnt))
    {
      var slot := Slot(flipcnt);
      var dest: array<Byte>;
      if need <= slot.Length {
        dest := slot;
      } else {
        dest := new Byte[(need / DEFAULT_BUF_SIZE + 1) * DEFAULT_BUF_SIZE];
        if dest.Length <= MAX_CACHED_BUF_SIZE {
          if flipcnt % 2 == 0 { dbuf0 := dest; } else { dbuf1 := dest; }
        }
      }
      Copy(dest, buf, idx, length);
      buf, idx := dest, 0;
    }

    /** The second half: read from the network behind the first `have` bytes of `dest` until
        `need` bytes are there. */
    method Receive(dest: array<Byte>, have: nat, need: nat) returns (n: nat, ok: bool)
      requires have < need <= dest.Length
      modifies dest, nc`incoming
      ensures ok <==> need <= have + |old(nc.incoming)|
      ensures ok ==> need <= n <= dest.Length && dest[..n] + nc.incoming == old(dest[..have] + nc.incoming)
      ensures !ok ==> nc.incoming == []
      ensures dest[..have] == old(dest[..have])
    {
      n := have;
      while true
        invariant have <= n < need
        invariant dest[..n] + nc.incoming == old(dest[..have] + nc.incoming)
        invariant dest[..have] == old(dest[..have])
        decreases |nc.incoming|
      {
        var nn, err := nc.Read(dest, n);
        assert dest[..n + nn] == dest[..n] + dest[n..n + nn];
        assert dest[..have] == dest[..n][..have];
        n := n + nn;
        match err {
          case NoError =>
            if n < need { continue; }
            return n, true;
          case Eof =>
            return n, n >= need;
          case Failed =>
            return n, false;
        }
      }
    }

    method Fill(need: nat) returns (ok: bool)
      requires Valid() && length < need
      modifies this`buf, this`idx, this`length, this`dbuf0, this`dbuf1, Slot(flipcnt), nc`incoming
      ensures Valid() && (buf in old(Repr()) || fresh(buf)) && !FlipPending()
      ensures dbuf0 == old(dbuf0) || (dbuf0 == buf && fresh(buf))
      ensures dbuf1 == old(dbuf1) || (dbuf1 == buf && fresh(buf))
      ensures ok <==> need <= |old(Queue())|
      ensures ok ==> length >= need && Queue() == old(Queue())
      ensures !ok ==> Contents() == old(Contents()) && nc.incoming == []
      ensures idx == 0
      ensures need <= old(Slot(flipcnt)).Length ==> buf == old(Slot(flipcnt))
    {
      Retarget(need);
      var n: nat;
      assert Contents() == buf[..length];
      n, ok := Receive(buf, length, need);
      if ok {
        length := n;
        assert Contents() == buf[..n];
      } else {
        assert Contents() == buf[..length];
      }
    }

    /** The next `need` bytes of the queue; fails exactly when fewer are left. */
    method ReadNext(need: nat) returns (ok: bool, data: Slice)
      requires Valid()
      modifies this`buf, this`idx, this`length, this`dbuf0, this`dbuf1, Slot(flipcnt), nc`incoming
      ensures Valid() && (buf in old(Repr()) || fresh(buf))
      ensures dbuf0 == old(dbuf0) || (dbuf0 == buf && fresh(buf))
      ensures dbuf1 == old(dbuf1) || (dbuf1 == buf && fresh(buf))
      ensures ok <==> need <= |old(Queue())|
      ensures ok ==> data.Valid() && data.arr == buf && data.Bytes() == old(Queue())[..need]
      ensures ok ==> Queue() == old(Queue())[need..]
      ensures !ok ==> Contents() == old(Contents()) && nc.incoming == []
      ensures old(length) >= need ==> buf == old(buf) && length == old(length) - need && buf[..] == old(buf[..])
      ensures old(length) < need ==> !FlipPending() && (ok ==> data.off == 0)
      ensures old(length) >= need ==> FlipPending() == old(FlipPending())
      ensures old(length) < need <= old(Slot(flipcnt)).Length ==> buf == old(Slot(flipcnt))
    {
      data := Slice(buf, 0, 0);
      ok := true;
      if length < need {
        ok := Fill(need);
        if !ok { return; }
      }
      data := Advance(need);
    }

    method Advance(need: nat) returns (data: Slice)
      requires Valid() && need <= length
      modifies this`idx, this`length
      ensures Valid() && length == old(length) - need
      ensures data == Slice(buf, old(idx), need) && data.Bytes() == old(Queue())[..need]
      ensures Queue() == old(Queue())[need..]
    {
      Split(Contents(), nc.incoming, need);
      ghost var start, end := idx, idx + length;
      assert buf[start..end][..need] == buf[start..start + need];
      assert buf[start..end][need..] == buf[start + need..end];
      data := Slice(buf, idx, need);
      idx := idx + need;
      length := length - need;
    }

    /** Between two flips: reads never touch the array that was active at the first flip,
        provided no earlier flip was still waiting for its fill. */
    method ReadsAfterFlip(kept: Slice, needs: seq<nat>)
      requires Valid() && kept.Valid() && kept.arr == buf && !FlipPending()
      modifies this, nc, dbuf0, dbuf1
      ensures Valid() && kept.Bytes() == old(kept.Bytes())
    {
      Flip();
      ghost var held := kept.Bytes();
      var i := 0;
      while i < |needs|
        invariant i <= |needs| && Valid() && flipcnt == old(flipcnt) + 1
        invariant kept.arr != Slot(flipcnt) && kept.Bytes() == held
        invariant dbuf0 == old(dbuf0) || fresh(dbuf0)
        invariant dbuf1 == old(dbuf1) || fresh(dbuf1)
      {
        var ok, data := ReadNext(needs[i]);
        i := i + 1;
      }
    }

    /** The condition is exact: with a flip still pending, a slice of `size` bytes returned now
        sits in the array that the next fill after one more flip reuses. A read that fills at
        least as far as the slice replaces its bytes by those that come `idx + size` later. */
    method SecondFlipOverwrites(size: nat, need: nat) returns (kept: Slice)
      requires Valid() && FlipPending() && 0 < size <= length < size + need && size + need <= |Queue()|
      requires idx + size <= need <= buf.Length
      modifies this, nc, dbuf0, dbuf1
      ensures kept.Valid() && kept == Slice(old(buf), old(idx), size) && buf == old(buf)
      ensures old(kept.Bytes()) == old(Queue())[..size]
      ensures kept.Bytes() == old(Queue()[idx + size..idx + size + size])
    {
      hide Queue, Contents;
      ghost var queue, at := Queue(), idx;
      kept := Advance(size);
      Flip();
      var ok, data := ReadNext(need);
      SlicesCompose(buf[..], queue, size, need, at);
    }

    /** What stands at `at` when the bytes behind the first `size` have been filled in from 0. */
    static lemma SlicesCompose(all: seq<Byte>, queue: seq<Byte>, size: nat, need: nat, at: nat)
      requires at + size <= need <= |all| && size + need <= |queue|
      requires all[0..need] == queue[size..][..need]
      ensures all[at..at + size] == queue[at + size..at + size + size]
    {
      assert all[at..at + size] == all[0..need][at..at + size];
      assert queue[size..][..need][at..at + size] == queue[at + size..at + size + size];
    }

    /** Write buffers may be taken only when nothing is left unread. */
    method TakeBuffer(size: nat) returns (r: Option<Slice>)
      requires Valid()
      modifies this`buf
      ensures Valid() && (buf == old(buf) || fresh(buf)) && Queue() == old(Queue())
      ensures r.Some? <==> length == 0
      ensures r.Some? ==> r.value.Valid() && r.value.off == 0 && r.value.len == size
                          && (r.value.arr == buf || fresh(r.value.arr))
    {
      if length > 0 { return None; }
      if size <= buf.Length {
        return Some(Slice(buf, 0, size));
      }
      var a := new Byte[size];
      if size < MAX_PACKET_SIZE {
        buf := a;
      }
      r := Some(Slice(a, 0, size));
    }

    /** A window that may be written freely: the queue does not depend on the array then. */
    method TakeSmallBuffer(size: nat) returns (r: Option<Slice>)
      requires Valid() && size <= DEFAULT_BUF_SIZE
      ensures r.Some? <==> length == 0
      ensures r.Some? ==> && r.value.Valid() && r.value.arr == buf && r.value.off == 0 && r.value.len == size
                          && Queue() == nc.incoming
    {
      r := if length > 0 then None else Some(Slice(buf, 0, size));
    }

    /** The largest such window: 4096 bytes at least, and no capacity behind it. */
    method TakeCompleteBuffer() returns (r: Option<Slice>)
      requires Valid()
      ensures r.Some? <==> length == 0
      ensures r.Some? ==> && r.value.Valid() && r.value.arr == buf && r.value.off == 0
                          && r.value.len == r.value.Cap() >= DEFAULT_BUF_SIZE && Queue() == nc.incoming
    {
      r := if length > 0 then None else Some(Slice(buf, 0, buf.Length));
    }

    /** Keeps a grown write buffer as the active array, if it is larger and not too large. */
    method Store(a: array<Byte>) returns (ok: bool)
      requires Valid()
      modifies this`buf
      ensures Valid() && Queue() == old(Queue()) && buf.Length >= old(buf).Length
      ensures ok <==> length == 0
      ensures buf == if ok && old(buf).Length < a.Length <= MAX_PACKET_SIZE then a else old(buf)
    {
      if length > 0 { return false; }
      if a.Length <= MAX_PACKET_SIZE && a.Length > buf.Length {
        buf := a;
      }
      ok := true;
    }

    /** One operation of a client: a read, a flip, a take with arbitrary writes into what was
        taken, or a store. */
    method Step(op: Op) returns (got: seq<Byte>, ok: bool)
      requires Valid()
      modifies Repr(), nc`incoming
      ensures Valid() && forall o | o in Repr() :: o in old(Repr()) || fresh(o)
      ensures ok ==> got + Queue() == old(Queue())
      ensures !ok ==> got == []
    {
      hide Queue, Contents;
      got, ok := [], true;
      EmptyLeft(Queue());
      match op {
        case Read(need) =>
          var data: Slice;
          ghost var queue := Queue();
          ok, data := ReadNext(need);
          if ok {
            TakeDrop(queue, need);
            got := data.Bytes();
          }
        case Flipping => Flip();
        case TakeAndFill(size, byte) =>
          var s := TakeBuffer(size);
          if s.Some? {
            ghost var queue := Queue();
            assert queue == nc.incoming by { EmptyQueue(); }
            forall k | 0 <= k < size { s.value.arr[k] := byte; }
            EmptyQueue();
          }
        case Storing(size) =>
          var a := new Byte[size];
          var stored := Store(a);
      }
    }

    /** Over any run, the bytes read followed by the queue are the bytes of the network: none
        is lost, repeated or reordered. */
    method Run(ops: seq<Op>) returns (got: seq<Byte>, ok: bool)
      requires Valid()
      modifies Repr(), nc`incoming
      ensures Valid()
      ensures ok ==> got + Queue() == old(Queue())
      ensures !ok ==> got <= old(Queue())
    {
      hide Queue, Contents;
      got, ok := [], true;
      var i := 0;
      EmptyLeft(Queue());
      while i < |ops|
        invariant i <= |ops| && Valid() && got + Queue() == old(Queue())
        invariant forall o | o in Repr() :: o in old(Repr()) || fresh(o)
      {
        var more;
        more, ok := Step(ops[i]);
        if !ok { return; }
        Associate(got, more, Queue());
        got := got + more;
        i := i + 1;
      }
    }

    lemma EmptyQueue()
      requires Valid() && length == 0
      ensures Queue() == nc.incoming
    {
    }

    static lemma Split(contents: seq<Byte>, incoming: seq<Byte>, need: nat)
      requires need <= |contents|
      ensures (contents + incoming)[..need] == contents[..need]
      ensures (contents + incoming)[need..] == contents[need..] + incoming
    {
    }
  }
}
