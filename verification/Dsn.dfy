/** Data source names: [user[:password]@][net[(addr)]]/dbname[?name=value&...]. */
module Dsn {
  import opened Bytes
  import opened Decimals
  import opened Urls

  const AT: Byte := 0x40
  const COLON: Byte := 0x3a
  const OPEN: Byte := 0x28
  const CLOSE: Byte := 0x29
  const OPEN_BRACKET: Byte := 0x5b
  const CLOSE_BRACKET: Byte := 0x5d

  datatype DsnError =
    | NoSlash | UnescapedAddress | BadAddress | BadName | BadBool | BadEscape | BadLocation | BadDuration
    | BadNumber | NoCompression | NoStrictMode | NoDefaultAddress | UnsafeCollation | UnknownTls | UnknownKey

  datatype Flag =
    | AllowAllFiles | AllowCleartextPasswords | AllowFallbackToPlaintext | AllowNativePasswords
    | AllowOldPasswords | CheckConnLiveness | ClientFoundRows | ColumnsWithAlias | InterpolateParams
    | MultiStatements | ParseTime | RejectReadOnly

  /** A location is its name; a nil map is an empty one; `flags` are the options that are on. */
  datatype Settings = Settings(
    user: Text, passwd: Text, net: Text, addr: Text, dbName: Text,
    flags: set<Flag>, collation: Text, loc: Text, serverPubKey: Text, tls: Text,
    readTimeout: int, timeout: int, writeTimeout: int, maxAllowedPacket: int,
    params: map<Text, Text>, attributes: Text)

  function UTC(): Text { Ascii("UTC") }

  /** NewConfig */
  function Defaults(): Settings {
    Settings([], [], [], [], [], {AllowNativePasswords, CheckConnLiveness}, [], UTC(), [], [],
             0, 0, 0, 0x400_0000, map[], [])
  }

  /** What the parser asks of the rest of the program and of the time package. */
  datatype Env = Env(
    unsafe: Text -> bool, tlsKnown: Text -> bool, keyKnown: Text -> bool, locationKnown: Text -> bool,
    duration: Text -> Option<int>, durationText: int -> Text)

  // ---- The options, one by one ----

  datatype Field =
    | Toggle(flag: Flag) | Collation | Loc | ReadTimeout | ServerPubKey | Timeout | Tls | WriteTimeout
    | MaxAllowedPacket

  datatype Value = Bool(b: bool) | Str(t: Text) | Num(n: int)

  predicate Fits(f: Field, v: Value) {
    match f
    case Toggle(_) => v.Bool?
    case Collation => v.Str?
    case Loc => v.Str?
    case ServerPubKey => v.Str?
    case Tls => v.Str?
    case _ => v.Num?
  }

  function Get(s: Settings, f: Field): (v: Value)
    ensures Fits(f, v)
  {
    match f
    case Toggle(flag) => Bool(flag in s.flags)
    case Collation => Str(s.collation)
    case Loc => Str(s.loc)
    case ReadTimeout => Num(s.readTimeout)
    case ServerPubKey => Str(s.serverPubKey)
    case Timeout => Num(s.timeout)
    case Tls => Str(s.tls)
    case WriteTimeout => Num(s.writeTimeout)
    case MaxAllowedPacket => Num(s.maxAllowedPacket)
  }

  function Set(s: Settings, f: Field, v: Value): Settings
    requires Fits(f, v)
  {
    match f
    case Toggle(flag) => s.(flags := if v.b then s.flags + {flag} else s.flags - {flag})
    case Collation => s.(collation := v.t)
    case Loc => s.(loc := v.t)
    case ReadTimeout => s.(readTimeout := v.n)
    case ServerPubKey => s.(serverPubKey := v.t)
    case Timeout => s.(timeout := v.n)
    case Tls => s.(tls := v.t)
    case WriteTimeout => s.(writeTimeout := v.n)
    case MaxAllowedPacket => s.(maxAllowedPacket := v.n)
  }

  /** In the order in which they are written. */
  const FIELDS: seq<Field> := [
    Toggle(AllowAllFiles), Toggle(AllowCleartextPasswords), Toggle(AllowFallbackToPlaintext),
    Toggle(AllowNativePasswords), Toggle(AllowOldPasswords), Toggle(CheckConnLiveness),
    Toggle(ClientFoundRows), Collation, Toggle(ColumnsWithAlias), Toggle(InterpolateParams), Loc,
    Toggle(MultiStatements), Toggle(ParseTime), ReadTimeout, Toggle(RejectReadOnly), ServerPubKey,
    Timeout, Tls, WriteTimeout, MaxAllowedPacket]

  /** Where a field stands in FIELDS. */
  function Place(f: Field): (k: nat)
    ensures k < |FIELDS| && FIELDS[k] == f
  {
    match f
    case Toggle(flag) => (
      match flag
      case AllowAllFiles => 0
      case AllowCleartextPasswords => 1
      case AllowFallbackToPlaintext => 2
      case AllowNativePasswords => 3
      case AllowOldPasswords => 4
      case CheckConnLiveness => 5
      case ClientFoundRows => 6
      case ColumnsWithAlias => 8
      case InterpolateParams => 9
      case MultiStatements => 11
      case ParseTime => 12
      case RejectReadOnly => 14)
    case Collation => 7
    case Loc => 10
    case ReadTimeout => 13
    case ServerPubKey => 15
    case Timeout => 16
    case Tls => 17
    case WriteTimeout => 18
    case MaxAllowedPacket => 19
  }

  predicate Letters(s: string) {
    forall i | 0 <= i < |s| :: 'A' <= s[i] <= 'z'
  }

  function AllowName(flag: Flag): (name: string)
    ensures name != "" && Letters(name)
  {
    match flag
    case AllowAllFiles => "allowAllFiles"
    case AllowCleartextPasswords => "allowCleartextPasswords"
    case AllowFallbackToPlaintext => "allowFallbackToPlaintext"
    case AllowNativePasswords => "allowNativePasswords"
    case _ => "allowOldPasswords"
  }

  function LaterName(flag: Flag): (name: string)
    ensures name != "" && Letters(name)
  {
    match flag
    case MultiStatements => "multiStatements"
    case ParseTime => "parseTime"
    case _ => "rejectReadOnly"
  }

  function FlagName(flag: Flag): (name: string)
    ensures name != "" && Letters(name)
  {
    match flag
    case CheckConnLiveness => "checkConnLiveness"
    case ClientFoundRows => "clientFoundRows"
    case ColumnsWithAlias => "columnsWithAlias"
    case InterpolateParams => "interpolateParams"
    case MultiStatements => LaterName(flag)
    case ParseTime => LaterName(flag)
    case RejectReadOnly => LaterName(flag)
    case _ => AllowName(flag)
  }

  function Name(f: Field): (name: string)
    ensures name != "" && Letters(name)
  {
    match f
    case Toggle(flag) => FlagName(flag)
    case Collation => "collation"
    case Loc => "loc"
    case ReadTimeout => "readTimeout"
    case ServerPubKey => "serverPubKey"
    case Timeout => "timeout"
    case Tls => "tls"
    case WriteTimeout => "writeTimeout"
    case MaxAllowedPacket => "maxAllowedPacket"
  }

  function NameText(f: Field): Text { Ascii(Name(f)) }

  /** The field behind a parameter name, at place `k` or later. */
  function FieldFrom(name: Text, k: nat): Option<Field>
    requires k <= |FIELDS|
    decreases |FIELDS| - k
  {
    if k == |FIELDS| then None
    else if NameText(FIELDS[k]) == name then Some(FIELDS[k])
    else FieldFrom(name, k + 1)
  }

  // ---- Values as text ----

  function ReadBool(s: Text): Option<bool> {
    if s == Ascii("1") || s == Ascii("true") || s == Ascii("TRUE") || s == Ascii("True") then Some(true)
    else if s == Ascii("0") || s == Ascii("false") || s == Ascii("FALSE") || s == Ascii("False") then Some(false)
    else None
  }

  predicate AllDigits(s: Text) {
    s != [] && forall i | 0 <= i < |s| :: 0x30 <= s[i] <= 0x39
  }

  /** strconv.Atoi */
  function Atoi(s: Text): Option<int> {
    var digits := if s != [] && (s[0] == MINUS || s[0] == PLUS) then s[1..] else s;
    if !AllDigits(digits) then None
    else
      var n := if s[0] == MINUS then -Denoted(digits) else Denoted(digits);
      if -0x8000_0000_0000_0000 <= n < 0x8000_0000_0000_0000 then Some(n) else None
  }

  function Lower(s: Text): (r: Text)
    ensures |r| == |s|
  {
    seq(|s|, i requires 0 <= i < |s| => if 0x41 <= s[i] <= 0x5a then s[i] + 0x20 else s[i])
  }

  predicate TlsWord(s: Text) {
    s == Ascii("skip-verify") || s == Ascii("preferred")
  }

  function ReadTls(s: Text): Option<Text> {
    if ReadBool(s).Some? then Some(if ReadBool(s).value then Ascii("true") else Ascii("false"))
    else if TlsWord(Lower(s)) then Some(Lower(s))
    else Unescape(s, true)
  }

  function ReadNum(n: Option<int>, e: DsnError): Result<Value, DsnError> {
    if n.None? then Err(e) else Ok(Num(n.value))
  }

  function ReadStr(t: Option<Text>): Result<Value, DsnError> {
    if t.None? then Err(BadEscape) else Ok(Str(t.value))
  }

  function ReadLocation(env: Env, t: Option<Text>): Result<Value, DsnError> {
    if t.None? then Err(BadEscape)
    else if t.value == [] then Ok(Str(UTC()))
    else if env.locationKnown(t.value) then Ok(Str(t.value))
    else Err(BadLocation)
  }

  function ReadField(env: Env, f: Field, s: Text): (r: Result<Value, DsnError>)
    ensures r.Ok? ==> Fits(f, r.value)
  {
    match f
    case Toggle(_) => if ReadBool(s).None? then Err(BadBool) else Ok(Bool(ReadBool(s).value))
    case Collation => Ok(Str(s))
    case Loc => ReadLocation(env, Unescape(s, true))
    case ServerPubKey => ReadStr(Unescape(s, true))
    case Tls => ReadStr(ReadTls(s))
    case MaxAllowedPacket => ReadNum(Atoi(s), BadNumber)
    case _ => ReadNum(env.duration(s), BadDuration)
  }

  function FieldText(env: Env, f: Field, v: Value): Text
    requires Fits(f, v)
  {
    match f
    case Toggle(_) => if v.b then Ascii("true") else Ascii("false")
    case Collation => v.t
    case Loc => Escape(v.t, true)
    case ServerPubKey => Escape(v.t, true)
    case Tls => Escape(v.t, true)
    case MaxAllowedPacket => Signed(v.n)
    case _ => env.durationText(v.n)
  }

  /** The condition of the `if` in front of each option. */
  predicate IsWritten(s: Settings, f: Field) {
    match f
    case Toggle(flag) =>
      if flag.AllowNativePasswords? || flag.CheckConnLiveness? then flag !in s.flags else flag in s.flags
    case Collation => s.collation != []
    case Loc => s.loc != UTC()
    case ReadTimeout => s.readTimeout > 0
    case ServerPubKey => |s.serverPubKey| > 0
    case Timeout => s.timeout > 0
    case Tls => |s.tls| > 0
    case WriteTimeout => s.writeTimeout > 0
    case MaxAllowedPacket => s.maxAllowedPacket != 0x400_0000
  }

  // ---- Searching ----

  /** The first place of `c`; the length if there is none. */
  function First(s: Text, c: Byte): (k: nat)
    ensures k <= |s| && (k < |s| ==> s[k] == c)
    ensures forall i | 0 <= i < k :: s[i] != c
  {
    if s == [] || s[0] == c then 0 else 1 + First(s[1..], c)
  }

  /** The last place of `c`; -1 if there is none. */
  function Last(s: Text, c: Byte): (k: int)
    ensures -1 <= k < |s| && (k >= 0 ==> s[k] == c)
    ensures forall i | k < i < |s| :: s[i] != c
  {
    if s == [] then -1 else if s[|s| - 1] == c then |s| - 1 else Last(s[..|s| - 1], c)
  }

  lemma FirstIs(s: Text, c: Byte, k: nat)
    requires k <= |s| && (k < |s| ==> s[k] == c) && forall i | 0 <= i < k :: s[i] != c
    ensures First(s, c) == k
  {
  }

  lemma LastIs(s: Text, c: Byte, k: int)
    requires -1 <= k < |s| && (k >= 0 ==> s[k] == c) && forall i | k < i < |s| :: s[i] != c
    ensures Last(s, c) == k
  {
  }

  /** The loops of the parser: from s[from] down, and from s[from] up to s[to]. */
  method ScanBack(s: Text, to: nat, c: Byte) returns (j: int)
    requires to <= |s|
    ensures j == Last(s[..to], c)
  {
    j := to - 1;
    while j >= 0 && s[j] != c
      invariant -1 <= j < to && forall i | j < i < to :: s[i] != c
    {
      j := j - 1;
    }
    LastIs(s[..to], c, j);
  }

  method ScanForward(s: Text, from: nat, to: nat, c: Byte) returns (k: nat)
    requires from <= to <= |s|
    ensures from <= k <= to && k == from + First(s[from..to], c)
  {
    k := from;
    while k < to && s[k] != c
      invariant from <= k <= to && forall i | from <= i < k :: s[i] != c
    {
      k := k + 1;
    }
    FirstIs(s[from..to], c, k - from);
  }

  // ---- The parameters ----

  /** strings.Split, from the right. */
  function Pieces(s: Text, sep: Byte): (ps: seq<Text>)
    ensures ps != []
  {
    var k := Last(s, sep);
    if k < 0 then [s] else Pieces(s[..k], sep) + [s[k + 1..]]
  }

  function Apply(env: Env, s: Settings, piece: Text): Result<Settings, DsnError> {
    var k := First(piece, EQUALS);
    if k == |piece| then Ok(s) else Assign(env, s, piece[..k], piece[k + 1..])
  }

  function Refused(name: Text): Option<DsnError> {
    if name == Ascii("compress") then Some(NoCompression)
    else if name == Ascii("strict") then Some(NoStrictMode)
    else None
  }

  predicate IsAttributes(name: Text) {
    name == Ascii("connectionAttributes")
  }

  function Assign(env: Env, s: Settings, name: Text, value: Text): Result<Settings, DsnError> {
    match FieldFrom(name, 0)
    case Some(f) => (
      match ReadField(env, f, value)
      case Ok(v) => Ok(Set(s, f, v))
      case Err(e) => Err(e))
    case None =>
      if Refused(name).Some? then Err(Refused(name).value)
      else if IsAttributes(name) then Ok(s.(attributes := value))
      else if Unescape(value, true).None? then Err(BadEscape)
      else Ok(s.(params := s.params[name := Unescape(value, true).value]))
  }

  function ApplyAll(env: Env, s: Settings, pieces: seq<Text>): Result<Settings, DsnError> {
    if pieces == [] then Ok(s)
    else match ApplyAll(env, s, pieces[..|pieces| - 1])
      case Ok(t) => Apply(env, t, pieces[|pieces| - 1])
      case Err(e) => Err(e)
  }

  lemma {:induction false} ErrorsStay(env: Env, s: Settings, pieces: seq<Text>, k: nat)
    requires k <= |pieces| && ApplyAll(env, s, pieces[..k]).Err?
    ensures ApplyAll(env, s, pieces) == ApplyAll(env, s, pieces[..k])
    decreases |pieces|
  {
    if k < |pieces| {
      var front := pieces[..|pieces| - 1];
      assert front[..k] == pieces[..k];
      ErrorsStay(env, s, front, k);
    } else {
      assert pieces[..k] == pieces;
    }
  }

  // ---- Addresses ----

  /** net.SplitHostPort succeeds. */
  predicate HasPort(a: Text) {
    var i := Last(a, COLON);
    i >= 0
    && if a[0] == OPEN_BRACKET then
         var end := First(a, CLOSE_BRACKET);
         end < |a| && end + 1 == i && OPEN_BRACKET !in a[1..] && CLOSE_BRACKET !in a[end + 1..]
       else
         COLON !in a[..i] && OPEN_BRACKET !in a && CLOSE_BRACKET !in a
  }

  function EnsureHavePort(a: Text): Text {
    if HasPort(a) then a
    else if COLON in a then [OPEN_BRACKET] + a + [CLOSE_BRACKET] + Ascii(":3306")
    else a + Ascii(":3306")
  }

  // ---- Normalizing ----

  function Tcp(): Text { Ascii("tcp") }

  function NormalNet(net: Text): Text { if net == [] then Tcp() else net }

  function NormalAddr(net: Text, addr: Text): Option<Text> {
    if addr == [] then
      if net == Tcp() then Some(Ascii("127.0.0.1:3306"))
      else if net == Ascii("unix") then Some(Ascii("/tmp/mysql.sock"))
      else None
    else if net == Tcp() then Some(EnsureHavePort(addr))
    else Some(addr)
  }

  /** The words for true and for false; every other value is refused. */
  lemma BoolWords(s: Text)
    ensures ReadBool(s) == Some(true) <==> s == [0x31] || s == Ascii("true") || s == Ascii("TRUE") || s == Ascii("True")
    ensures ReadBool(s) == Some(false)
            <==> s == [0x30] || s == Ascii("false") || s == Ascii("FALSE") || s == Ascii("False")
  {
    assert Ascii("1") == [0x31] && Ascii("0") == [0x30];
    assert Ascii("true")[0] == 0x74 && Ascii("TRUE")[0] == 0x54 && Ascii("True")[0] == 0x54;
    assert Ascii("false")[0] == 0x66 && Ascii("FALSE")[0] == 0x46 && Ascii("False")[0] == 0x46;
  }

  /** Where a name without an address leads: the local server over TCP, its socket, and an error
      for every other network. No network means TCP. */
  lemma DefaultAddresses(net: Text)
    ensures NormalNet([]) == Ascii("tcp")
    ensures NormalAddr(Ascii("tcp"), []) == Some(Ascii("127.0.0.1:3306"))
    ensures NormalAddr(Ascii("unix"), []) == Some(Ascii("/tmp/mysql.sock"))
    ensures NormalAddr(net, []).None? <==> net != Ascii("tcp") && net != Ascii("unix")
  {
    assert Ascii("tcp") != Ascii("unix") by { assert |Ascii("tcp")| == 3; }
  }

  predicate TlsAccepted(env: Env, tls: Text) {
    tls == [] || tls == Ascii("false") || tls == Ascii("true") || TlsWord(tls) || env.tlsKnown(tls)
  }

  function Normalized(env: Env, s: Settings): Result<Settings, DsnError> {
    var net := NormalNet(s.net);
    if InterpolateParams in s.flags && s.collation != [] && env.unsafe(s.collation) then Err(UnsafeCollation)
    else if NormalAddr(net, s.addr).None? then Err(NoDefaultAddress)
    else if !TlsAccepted(env, s.tls) then Err(UnknownTls)
    else if s.serverPubKey != [] && !env.keyKnown(s.serverPubKey) then Err(UnknownKey)
    else
      Ok(s.(net := net, addr := NormalAddr(net, s.addr).value,
            flags := if s.tls == Ascii("preferred") then s.flags + {AllowFallbackToPlaintext} else s.flags))
  }

  // ---- The whole name ----

  /** user[:password], the part in front of the last '@'. */
  function Credentials(creds: Text): (Text, Text) {
    var k := First(creds, COLON);
    (creds[..k], if k < |creds| then creds[k + 1..] else [])
  }

  /** net[(addr)] */
  function Address(rest: Text): Result<(Text, Text), DsnError> {
    var k := First(rest, OPEN);
    if k == |rest| then Ok((rest, []))
    else if rest[|rest| - 1] != CLOSE then Err(if CLOSE in rest[k + 1..] then UnescapedAddress else BadAddress)
    else Ok((rest[..k], rest[k + 1..|rest| - 1]))
  }

  function ParseLeft(left: Text): Result<Settings, DsnError> {
    var j := Last(left, AT);
    var creds := if j < 0 then ([], []) else Credentials(left[..j]);
    match Address(left[j + 1..])
    case Err(e) => Err(e)
    case Ok((net, addr)) => Ok(Defaults().(user := creds.0, passwd := creds.1, net := net, addr := addr))
  }

  function ParseRight(env: Env, s: Settings, right: Text): Result<Settings, DsnError> {
    var p := First(right, QUESTION);
    match if p < |right| then ApplyAll(env, s, Pieces(right[p + 1..], AMPERSAND)) else Ok(s)
    case Err(e) => Err(e)
    case Ok(t) =>
      if Unescape(right[..p], false).None? then Err(BadName)
      else Ok(t.(dbName := Unescape(right[..p], false).value))
  }

  function Parsed(env: Env, dsn: Text): Result<Settings, DsnError> {
    var i := Last(dsn, SLASH);
    if i < 0 then
      if dsn == [] then Normalized(env, Defaults()) else Err(NoSlash)
    else match ParseLeft(dsn[..i])
      case Err(e) => Err(e)
      case Ok(s) =>
        match ParseRight(env, s, dsn[i + 1..])
        case Err(e) => Err(e)
        case Ok(t) => Normalized(env, t)
  }

  // ---- Writing ----

  function Piece(name: Text, value: Text): Text {
    name + ([EQUALS] + value)
  }

  /** What is written for fields FIELDS[..k]. */
  function FieldPieces(env: Env, s: Settings, k: nat): seq<Text>
    requires k <= |FIELDS|
  {
    if k == 0 then []
    else FieldPieces(env, s, k - 1) + FieldPiece(env, s, FIELDS[k - 1])
  }

  function FieldPiece(env: Env, s: Settings, f: Field): seq<Text> {
    if IsWritten(s, f) then [Piece(NameText(f), FieldText(env, f, Get(s, f)))] else []
  }

  function ParamPieces(params: map<Text, Text>, order: seq<Text>): seq<Text>
    requires forall n | n in order :: n in params
  {
    if order == [] then []
    else
      var name := order[|order| - 1];
      ParamPieces(params, order[..|order| - 1]) + [Piece(name, Escape(params[name], true))]
  }

  /** The parameters with their separators. */
  function Query(pieces: seq<Text>): Text {
    if pieces == [] then []
    else Query(pieces[..|pieces| - 1]) + ([if |pieces| == 1 then QUESTION else AMPERSAND] + pieces[|pieces| - 1])
  }

  function CredentialText(user: Text, passwd: Text): Text {
    if user == [] then []
    else user + ((if passwd == [] then [] else [COLON] + passwd) + [AT])
  }

  function AddressText(net: Text, addr: Text): Text {
    if net == [] then [] else net + (if addr == [] then [] else [OPEN] + (addr + [CLOSE]))
  }

  function Formatted(env: Env, s: Settings, order: seq<Text>): Text
    requires forall n | n in order :: n in s.params
  {
    CredentialText(s.user, s.passwd) + AddressText(s.net, s.addr)
    + ([SLASH] + (Escape(s.dbName, false)
                  + Query(FieldPieces(env, s, |FIELDS|) + ParamPieces(s.params, order))))
  }

  /** Every key of the map, once. */
  ghost predicate Lists(order: seq<Text>, params: map<Text, Text>) {
    (forall n :: n in order <==> n in params) && forall i, j | 0 <= i < j < |order| :: order[i] != order[j]
  }

  /** A configuration, reached through a pointer. */
  class Config {
    var s: Settings

    constructor ()
      ensures s == Defaults()
    {
      s := Defaults();
    }

    method NormalizeAddress() returns (err: Option<DsnError>)
      modifies this
      ensures var net := NormalNet(old(s).net); var addr := NormalAddr(net, old(s).addr);
              if addr.None? then err == Some(NoDefaultAddress)
              else err == None && s == old(s).(net := net, addr := addr.value)
    {
      hide EnsureHavePort;
      err := None;
      if s.net == [] {
        s := s.(net := Tcp());
      }
      if s.addr == [] {
        if s.net == Tcp() {
          s := s.(addr := Ascii("127.0.0.1:3306"));
        } else if s.net == Ascii("unix") {
          s := s.(addr := Ascii("/tmp/mysql.sock"));
        } else {
          return Some(NoDefaultAddress);
        }
      } else if s.net == Tcp() {
        s := s.(addr := EnsureHavePort(s.addr));
      }
    }

    method Normalize(env: Env) returns (err: Option<DsnError>)
      modifies this
      ensures match Normalized(env, old(s))
              case Ok(t) => err == None && s == t
              case Err(e) => err == Some(e)
    {
      hide NormalNet, NormalAddr;
      err := None;
      if InterpolateParams in s.flags && s.collation != [] && env.unsafe(s.collation) {
        return Some(UnsafeCollation);
      }
      err := NormalizeAddress();
      if err.Some? { return; }
      if s.tls != [] && s.tls != Ascii("false") && s.tls != Ascii("true") {
        if s.tls == Ascii("preferred") {
          s := s.(flags := s.flags + {AllowFallbackToPlaintext});
        } else if !TlsWord(s.tls) && !env.tlsKnown(s.tls) {
          return Some(UnknownTls);
        }
      }
      if s.serverPubKey != [] && !env.keyKnown(s.serverPubKey) {
        return Some(UnknownKey);
      }
    }

    method ParseDSNParams(env: Env, params: Text) returns (err: Option<DsnError>)
      modifies this
      ensures match ApplyAll(env, old(s), Pieces(params, AMPERSAND))
              case Ok(t) => err == None && s == t
              case Err(e) => err == Some(e)
    {
      hide Apply, Pieces;
      var pieces := Pieces(params, AMPERSAND);
      var i := 0;
      while i < |pieces|
        invariant 0 <= i <= |pieces|
        invariant ApplyAll(env, old(s), pieces[..i]) == Ok(s)
      {
        assert pieces[..i + 1][..i] == pieces[..i];
        match Apply(env, s, pieces[i]) {
          case Ok(t) => s := t;
          case Err(e) =>
            ErrorsStay(env, old(s), pieces, i + 1);
            return Some(e);
        }
        i := i + 1;
      }
      assert pieces[..i] == pieces;
      err := None;
    }

    /** The credentials in front of the '@' at place `j`. */
    method ParseCredentials(dsn: Text, j: nat)
      requires j < |dsn| && s.passwd == []
      modifies this
      ensures var c := Credentials(dsn[..j]); s == old(s).(user := c.0, passwd := c.1)
    {
      var k := ScanForward(dsn, 0, j, COLON);
      assert dsn[0..j] == dsn[..j];
      if k < j {
        s := s.(passwd := dsn[k + 1..j]);
        assert dsn[..j][k + 1..] == dsn[k + 1..j];
      }
      s := s.(user := dsn[..k]);
      assert dsn[..j][..k] == dsn[..k];
    }

    /** The network and address between places `from` and `i`. */
    method ParseAddress(dsn: Text, from: nat, i: nat) returns (err: Option<DsnError>)
      requires from <= i < |dsn| && s.addr == []
      modifies this
      ensures match Address(dsn[from..i])
              case Ok((net, addr)) => err == None && s == old(s).(net := net, addr := addr)
              case Err(e) => err == Some(e)
    {
      hide First;
      err := None;
      ghost var rest := dsn[from..i];
      var k := ScanForward(dsn, from, i, OPEN);
      if k < i {
        assert rest[|rest| - 1] == dsn[i - 1];
        SliceOfSlice(dsn, from, i, k - from + 1, |rest|);
        if dsn[i - 1] != CLOSE {
          return Some(if CLOSE in dsn[k + 1..i] then UnescapedAddress else BadAddress);
        }
        s := s.(addr := dsn[k + 1..i - 1]);
        SliceOfSlice(dsn, from, i, k - from + 1, |rest| - 1);
      }
      s := s.(net := dsn[from..k]);
      SliceOfSlice(dsn, from, i, 0, k - from);
    }

    /** The part in front of the slash at place `i`. */
    method ParseFront(dsn: Text, i: nat) returns (err: Option<DsnError>)
      requires i < |dsn| && s == Defaults()
      modifies this
      ensures match ParseLeft(dsn[..i])
              case Ok(t) => err == None && s == t
              case Err(e) => err == Some(e)
    {
      hide Credentials, Address, UTC;
      var j := ScanBack(dsn, i, AT);
      if j >= 0 {
        ParseCredentials(dsn, j);
        assert dsn[..i][..j] == dsn[..j];
      }
      assert dsn[..i][j + 1..] == dsn[j + 1..i];
      err := ParseAddress(dsn, j + 1, i);
    }

    /** The part behind it. */
    method ParseBack(env: Env, dsn: Text, i: nat) returns (err: Option<DsnError>)
      requires i < |dsn|
      modifies this
      ensures match ParseRight(env, old(s), dsn[i + 1..])
              case Ok(t) => err == None && s == t
              case Err(e) => err == Some(e)
    {
      hide ApplyAll, Pieces, Unescape;
      ghost var right := dsn[i + 1..];
      var j := ScanForward(dsn, i + 1, |dsn|, QUESTION);
      assert dsn[i + 1..|dsn|] == right;
      err := None;
      if j < |dsn| {
        assert right[j - i..] == dsn[j + 1..];
        err := ParseDSNParams(env, dsn[j + 1..]);
        if err.Some? { return; }
      }
      assert right[..j - i - 1] == dsn[i + 1..j];
      var name := Unescape(dsn[i + 1..j], false);
      if name.None? {
        return Some(BadName);
      }
      s := s.(dbName := name.value);
    }

    /** The options, written one after the other behind `head`. */
    method WriteFields(env: Env, head: Text) returns (buf: Text, hasParam: bool)
      ensures var pieces := FieldPieces(env, s, |FIELDS|);
              buf == head + Query(pieces) && hasParam == (pieces != [])
    {
      hide IsWritten, FieldText, NameText;
      buf, hasParam := head, false;
      assert head + [] == head;
      var i := 0;
      while i < |FIELDS|
        invariant 0 <= i <= |FIELDS|
        invariant var pieces := FieldPieces(env, s, i); buf == head + Query(pieces) && hasParam == (pieces != [])
      {
        ghost var pieces := FieldPieces(env, s, i);
        var f := FIELDS[i];
        if IsWritten(s, f) {
          buf := WriteDSNParam(buf, hasParam, NameText(f), FieldText(env, f, Get(s, f)), head, pieces);
          hasParam := true;
        } else {
          assert pieces + [] == pieces;
        }
        i := i + 1;
      }
    }

    static lemma NoParams(params: map<Text, Text>)
      ensures ParamPieces(params, []) == []
    {
    }

    static lemma OneParamMore(params: map<Text, Text>, order: seq<Text>, name: Text)
      requires name in params && forall n | n in order :: n in params
      ensures ParamPieces(params, order + [name])
           == ParamPieces(params, order) + [Piece(name, Escape(params[name], true))]
    {
      hide Escape;
      assert (order + [name])[..|order|] == order;
    }

    /** The further parameters, in the order in which the keys come. */
    method WriteParams(head: Text, before: Text, has: bool, ghost fields: seq<Text>)
      returns (buf: Text, order: seq<Text>)
      requires before == head + Query(fields) && has == (fields != [])
      ensures Lists(order, s.params) && buf == head + Query(fields + ParamPieces(s.params, order))
    {
      hide Escape, Query, ParamPieces, Piece;
      buf, order := before, [];
      NoParams(s.params);
      var hasParam, left := has, s.params.Keys;
      assert fields + [] == fields;
      while left != {}
        invariant left <= s.params.Keys
        invariant forall n :: n in order <==> n in s.params && n !in left
        invariant forall k, l | 0 <= k < l < |order| :: order[k] != order[l]
        invariant var pieces := fields + ParamPieces(s.params, order);
                  buf == head + Query(pieces) && hasParam == (pieces != [])
        decreases |left|
      {
        var name :| name in left;
        var text := Escape(s.params[name], true);
        ghost var params := ParamPieces(s.params, order);
        buf := WriteDSNParam(buf, hasParam, name, text, head, fields + params);
        hasParam := true;
        OneParamMore(s.params, order, name);
        Associate(fields, params, [Piece(name, text)]);
        order := order + [name];
        left := left - {name};
      }
    }

    /** FormatDSN; `order` is the order in which the map of further parameters is walked. */
    method FormatDSN(env: Env) returns (dsn: Text, order: seq<Text>)
      ensures Lists(order, s.params) && dsn == Formatted(env, s, order)
    {
      hide Escape, FieldPieces, ParamPieces, Query, CredentialText, AddressText;
      var front := CredentialText(s.user, s.passwd) + AddressText(s.net, s.addr);
      var head := front + ([SLASH] + Escape(s.dbName, false));
      var buf, hasParam := WriteFields(env, head);
      ghost var fields := FieldPieces(env, s, |FIELDS|);
      dsn, order := WriteParams(head, buf, hasParam, fields);
      ghost var query := Query(fields + ParamPieces(s.params, order));
      Associate(front, [SLASH] + Escape(s.dbName, false), query);
      Associate([SLASH], Escape(s.dbName, false), query);
    }

    /** writeDSNParam */
    static method WriteDSNParam(buf: Text, hasParam: bool, name: Text, value: Text,
        ghost head: Text, ghost pieces: seq<Text>)
      returns (r: Text)
      requires buf == head + Query(pieces) && hasParam == (pieces != [])
      ensures r == head + Query(pieces + [Piece(name, value)])
    {
      r := buf + ([if hasParam then AMPERSAND else QUESTION] + (name + ([EQUALS] + value)));
      var all := pieces + [Piece(name, value)];
      assert all[..|all| - 1] == pieces;
      Associate(head, Query(pieces), [if hasParam then AMPERSAND else QUESTION] + Piece(name, value));
    }
  }

  /** ParseDSN */
  method ParseDSN(env: Env, dsn: Text) returns (cfg: Config, err: Option<DsnError>)
    ensures fresh(cfg)
    ensures match Parsed(env, dsn)
            case Ok(s) => err == None && cfg.s == s
            case Err(e) => err == Some(e)
  {
    hide ParseLeft, ParseRight, Normalized;
    cfg := new Config();
    var i := ScanBack(dsn, |dsn|, SLASH);
    assert dsn[..|dsn|] == dsn;
    if i < 0 {
      if |dsn| > 0 {
        return cfg, Some(NoSlash);
      }
    } else {
      err := cfg.ParseFront(dsn, i);
      if err.Some? { return; }
      err := cfg.ParseBack(env, dsn, i);
      if err.Some? { return; }
    }
    err := cfg.Normalize(env);
  }
}
