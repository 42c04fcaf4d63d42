/** Escaping of string literals into a reserved part of a buffer, and the server's reader of
    such literals. */
module Escaping {
  import opened Bytes
  import opened Buffers

  const QUOTE: Byte := 0x27
  const DOUBLE_QUOTE: Byte := 0x22
  const BACKSLASH: Byte := 0x5c

  /** The character that follows the backslash; None for a character that stands for itself. */
  function EscapeCode(c: Byte): Option<Byte> {
    if c == 0x00 then Some(0x30)        // \0
    else if c == 0x0a then Some(0x6e)   // \n
    else if c == 0x0d then Some(0x72)   // \r
    else if c == 0x1a then Some(0x5a)   // \Z
    else if c == QUOTE || c == DOUBLE_QUOTE || c == BACKSLASH then Some(c)
    else None
  }

  /** One character, escaped with backslashes or, in NO_BACKSLASH_ESCAPES mode, by doubling. */
  function EscapeOne(c: Byte, backslash: bool): (e: seq<Byte>)
    ensures 1 <= |e| <= 2
  {
    if backslash then
      if EscapeCode(c).Some? then [BACKSLASH, EscapeCode(c).value] else [c]
    else if c == QUOTE then [QUOTE, QUOTE]
    else [c]
  }

  function Escaped(v: seq<Byte>, backslash: bool): (e: seq<Byte>)
    ensures |v| <= |e| <= 2 * |v|
  {
    if v == [] then [] else Escaped(v[..|v| - 1], backslash) + EscapeOne(v[|v| - 1], backslash)
  }

  /** reserveBuffer: the same bytes with `appendSize` more behind them. */
  method ReserveBuffer(buf: Slice, appendSize: nat) returns (r: Slice)
    requires buf.Valid()
    ensures r.Valid() && r.len == buf.len + appendSize
    ensures (r.arr == buf.arr && r.off == buf.off) || (fresh(r.arr) && r.off == 0)
    ensures r.arr[r.off..r.off + buf.len] == buf.Bytes()
  {
    var newSize := buf.len + appendSize;
    if buf.Cap() < newSize {
      var newBuf := new Byte[buf.len * 2 + appendSize];
      Put(newBuf, 0, buf.Bytes());
      r := Slice(newBuf, 0, newSize);
    } else {
      r := Slice(buf.arr, buf.off, newSize);
    }
  }

  method WriteEscaped(arr: array<Byte>, at: nat, c: Byte, backslash: bool) returns (next: nat)
    requires at + 2 <= arr.Length
    modifies arr
    ensures at < next <= at + 2 && arr[at..next] == EscapeOne(c, backslash)
    ensures forall k | 0 <= k < arr.Length && !(at <= k < at + 2) :: arr[k] == old(arr[k])
  {
    var code := if backslash then EscapeCode(c) else if c == QUOTE then Some(QUOTE) else None;
    if code.Some? {
      arr[at + 1] := code.value;
      arr[at] := if backslash then BACKSLASH else QUOTE;
      next := at + 2;
    } else {
      arr[at] := c;
      next := at + 1;
    }
  }

  /** The loop of the escape functions: it writes only inside the reserved part. */
  method EscapeInto(arr: array<Byte>, start: nat, v: seq<Byte>, backslash: bool) returns (pos: nat)
    requires start + 2 * |v| <= arr.Length
    modifies arr
    ensures start <= pos <= start + 2 * |v| && arr[start..pos] == Escaped(v, backslash)
    ensures forall k | 0 <= k < arr.Length && !(start <= k < start + 2 * |v|) :: arr[k] == old(arr[k])
  {
    hide EscapeOne;
    pos := start;
    var i := 0;
    while i < |v|
      invariant 0 <= i <= |v| && start <= pos <= start + 2 * i
      invariant arr[start..pos] == Escaped(v[..i], backslash)
      invariant forall k | 0 <= k < arr.Length && !(start <= k < start + 2 * |v|) :: arr[k] == old(arr[k])
    {
      ghost var done := arr[start..pos];
      var next := WriteEscaped(arr, pos, v[i], backslash);
      assert arr[start..pos] == done;
      assert arr[start..next] == done + arr[pos..next];
      assert v[..i + 1][..i] == v[..i];
      pos := next;
      i := i + 1;
    }
    assert v[..i] == v;
  }

  /** The escape functions: the escaped text behind an untouched prefix. */
  method Escape(buf: Slice, v: seq<Byte>, backslash: bool) returns (r: Slice)
    requires buf.Valid()
    modifies buf.arr
    ensures r.Valid() && ((r.arr == buf.arr && r.off == buf.off) || fresh(r.arr))
    ensures r.Bytes() == old(buf.Bytes()) + Escaped(v, backslash)
    ensures forall k | 0 <= k < buf.arr.Length && !(buf.off + buf.len <= k < buf.off + buf.len + 2 * |v|) ::
              buf.arr[k] == old(buf.arr[k])
  {
    hide Escaped;
    var room := ReserveBuffer(buf, 2 * |v|);
    var start := room.off + buf.len;
    ghost var prefix := buf.Bytes();
    var pos := EscapeInto(room.arr, start, v, backslash);
    r := Slice(room.arr, room.off, pos - room.off);
    assert room.arr[room.off..start] == prefix;
    assert r.Bytes() == room.arr[room.off..start] + room.arr[start..pos];
  }

  // ---- The server's reader ----

  /** What a backslash sequence stands for; \% and \_ keep their backslash. */
  function Unescape(c: Byte): seq<Byte> {
    if c == 0x30 then [0x00]
    else if c == 0x6e then [0x0a]
    else if c == 0x72 then [0x0d]
    else if c == 0x5a then [0x1a]
    else if c == 0x74 then [0x09]
    else if c == 0x62 then [0x08]
    else if c == 0x25 || c == 0x5f then [BACKSLASH, c]
    else [c]
  }

  /** Reads a literal behind its opening quote: the value and what follows the closing quote;
      None if the literal does not end. */
  function ReadLiteral(q: seq<Byte>, backslash: bool): Option<(seq<Byte>, seq<Byte>)>
    decreases |q|
  {
    if q == [] then None
    else if q[0] == QUOTE then
      if |q| > 1 && q[1] == QUOTE then Prepend([QUOTE], ReadLiteral(q[2..], backslash))
      else Some(([], q[1..]))
    else if backslash && q[0] == BACKSLASH then
      if |q| == 1 then None else Prepend(Unescape(q[1]), ReadLiteral(q[2..], backslash))
    else Prepend([q[0]], ReadLiteral(q[1..], backslash))
  }

  function Prepend(v: seq<Byte>, r: Option<(seq<Byte>, seq<Byte>)>): Option<(seq<Byte>, seq<Byte>)> {
    if r.None? then None else Some((v + r.value.0, r.value.1))
  }

  lemma ReadOne(c: Byte, tail: seq<Byte>, backslash: bool)
    ensures ReadLiteral(EscapeOne(c, backslash) + tail, backslash) == Prepend([c], ReadLiteral(tail, backslash))
  {
    var e := EscapeOne(c, backslash);
    assert (e + tail)[|e|..] == tail;
    if |e| == 2 {
      assert (e + tail)[0] == e[0] && (e + tail)[1] == e[1];
    } else {
      assert (e + tail)[0] == c;
    }
  }

  /** Reading an escaped string gives the string, then whatever reading goes on to give. */
  lemma {:induction false} ReadEscaped(v: seq<Byte>, tail: seq<Byte>, backslash: bool)
    ensures ReadLiteral(Escaped(v, backslash) + tail, backslash) == Prepend(v, ReadLiteral(tail, backslash))
    decreases |v|
  {
    hide ReadLiteral, EscapeOne;
    var r := ReadLiteral(tail, backslash);
    if v == [] {
      EmptyLeft(tail);
      if r.Some? { EmptyLeft(r.value.0); }
    } else {
      var front, c := v[..|v| - 1], v[|v| - 1];
      Associate(Escaped(front, backslash), EscapeOne(c, backslash), tail);
      ReadEscaped(front, EscapeOne(c, backslash) + tail, backslash);
      ReadOne(c, tail, backslash);
      assert v == front + [c];
      if r.Some? { Associate(front, [c], r.value.0); }
    }
  }

  /** A reader started on a quoted literal recovers exactly the argument and stops at its
      closing quote, if and only if the text behind the literal does not start with a quote. */
  lemma LiteralReadBackIff(v: seq<Byte>, rest: seq<Byte>, backslash: bool)
    ensures ReadLiteral(Escaped(v, backslash) + ([QUOTE] + rest), backslash) == Some((v, rest))
            <==> (rest == [] || rest[0] != QUOTE)
  {
    var tail := [QUOTE] + rest;
    ReadEscaped(v, tail, backslash);
    if rest != [] && rest[0] == QUOTE {
      var r := ReadLiteral(tail, backslash);
      assert r.Some? ==> |r.value.0| > 0;
    } else {
      assert tail[1..] == rest;
      assert ReadLiteral(tail, backslash) == Some(([], rest));
      assert v + [] == v;
    }
  }
}
