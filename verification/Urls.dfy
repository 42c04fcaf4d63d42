/** Percent-encoding of DSN parts: url.PathEscape, url.QueryEscape and their inverses. */
module Urls {
  import opened Bytes

  type Text = seq<Byte>

  const SPACE: Byte := 0x20
  const PERCENT: Byte := 0x25
  const AMPERSAND: Byte := 0x26
  const PLUS: Byte := 0x2b
  const SLASH: Byte := 0x2f
  const EQUALS: Byte := 0x3d
  const QUESTION: Byte := 0x3f

  function Hex(d: nat): Byte
    requires d < 16
  {
    if d < 10 then 0x30 + d else 0x41 + d - 10
  }

  function Unhex(b: Byte): Option<nat> {
    if 0x30 <= b <= 0x39 then Some(b - 0x30)
    else if 0x41 <= b <= 0x46 then Some(b - 0x41 + 10)
    else if 0x61 <= b <= 0x66 then Some(b - 0x61 + 10)
    else None
  }

  predicate Unreserved(c: Byte) {
    0x30 <= c <= 0x39 || 0x41 <= c <= 0x5a || 0x61 <= c <= 0x7a || c == 0x2d || c == 0x5f || c == 0x2e || c == 0x7e
  }

  /** Written as itself: in a path segment also $ & + : = @. */
  predicate Plain(c: Byte, query: bool) {
    Unreserved(c)
    || (!query && (c == 0x24 || c == AMPERSAND || c == PLUS || c == 0x3a || c == EQUALS || c == 0x40))
  }

  function EscapeByte(c: Byte, query: bool): Text {
    if Plain(c, query) then [c]
    else if query && c == SPACE then [PLUS]
    else [PERCENT, Hex(c / 16), Hex(c % 16)]
  }

  function Escape(v: Text, query: bool): Text {
    if v == [] then [] else EscapeByte(v[0], query) + Escape(v[1..], query)
  }

  function Unescape(s: Text, query: bool): Option<Text> {
    if s == [] then Some([])
    else if s[0] == PERCENT then
      if |s| < 3 || Unhex(s[1]).None? || Unhex(s[2]).None? then None
      else Cons(16 * Unhex(s[1]).value + Unhex(s[2]).value, Unescape(s[3..], query))
    else Cons(if query && s[0] == PLUS then SPACE else s[0], Unescape(s[1..], query))
  }

  function Cons(c: int, rest: Option<Text>): Option<Text> {
    if rest.None? || !(0 <= c < 256) then None else Some([c] + rest.value)
  }

  lemma UnescapeByte(c: Byte, query: bool, rest: Text)
    ensures Unescape(EscapeByte(c, query) + rest, query) == Cons(c, Unescape(rest, query))
  {
    var s := EscapeByte(c, query) + rest;
    assert s[|EscapeByte(c, query)|..] == rest;
    if |EscapeByte(c, query)| == 3 {
      assert s[1] == Hex(c / 16) && s[2] == Hex(c % 16);
      assert Unhex(s[1]) == Some(c / 16) && Unhex(s[2]) == Some(c % 16);
    }
  }

  lemma {:induction false} UnescapeInvertsEscape(v: Text, query: bool)
    ensures Unescape(Escape(v, query), query) == Some(v)
  {
    if v != [] {
      UnescapeInvertsEscape(v[1..], query);
      UnescapeByte(v[0], query, Escape(v[1..], query));
      HeadTail(v);
    }
  }

  /** No delimiter of a DSN survives escaping. */
  lemma {:induction false} EscapeIsSafe(v: Text, query: bool)
    ensures SLASH !in Escape(v, query) && QUESTION !in Escape(v, query)
    ensures query ==> AMPERSAND !in Escape(v, query) && EQUALS !in Escape(v, query)
  {
    if v != [] {
      EscapeIsSafe(v[1..], query);
      assert SLASH !in EscapeByte(v[0], query) && QUESTION !in EscapeByte(v[0], query);
      assert query ==> AMPERSAND !in EscapeByte(v[0], query) && EQUALS !in EscapeByte(v[0], query);
    }
  }

  /** Text without the escape characters reads as itself. */
  lemma {:induction false} UnescapePlain(s: Text, query: bool)
    requires PERCENT !in s && (query ==> PLUS !in s)
    ensures Unescape(s, query) == Some(s)
  {
    if s != [] {
      UnescapePlain(s[1..], query);
      HeadTail(s);
    }
  }

  lemma {:induction false} EscapePlain(s: Text, query: bool)
    requires forall i | 0 <= i < |s| :: Unreserved(s[i])
    ensures Escape(s, query) == s
  {
    if s != [] {
      EscapePlain(s[1..], query);
      HeadTail(s);
    }
  }
}
