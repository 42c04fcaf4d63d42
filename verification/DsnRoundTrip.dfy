/** Reading back what was written: configurations, and the names that initMysqlDB puts together. */
module DsnRoundTrip {
  import opened Bytes
  import opened Decimals
  import opened Dsn
  import opened Urls

  // ---- Names of options ----

  /** Length and first letter tell the names apart. */
  function Key(f: Field): int {
    match f
    case Toggle(flag) => (
      match flag
      case AllowAllFiles => 13 * 256 + 'a' as int
      case AllowCleartextPasswords => 23 * 256 + 'a' as int
      case AllowFallbackToPlaintext => 24 * 256 + 'a' as int
      case AllowNativePasswords => 20 * 256 + 'a' as int
      case AllowOldPasswords => 17 * 256 + 'a' as int
      case CheckConnLiveness => 17 * 256 + 'c' as int
      case ClientFoundRows => 15 * 256 + 'c' as int
      case ColumnsWithAlias => 16 * 256 + 'c' as int
      case InterpolateParams => 17 * 256 + 'i' as int
      case MultiStatements => 15 * 256 + 'm' as int
      case ParseTime => 9 * 256 + 'p' as int
      case RejectReadOnly => 14 * 256 + 'r' as int)
    case Collation => 9 * 256 + 'c' as int
    case Loc => 3 * 256 + 'l' as int
    case ReadTimeout => 11 * 256 + 'r' as int
    case ServerPubKey => 12 * 256 + 's' as int
    case Timeout => 7 * 256 + 't' as int
    case Tls => 3 * 256 + 't' as int
    case WriteTimeout => 12 * 256 + 'w' as int
    case MaxAllowedPacket => 16 * 256 + 'm' as int
  }

  lemma FlagHasKey(flag: Flag)
    ensures |FlagName(flag)| * 256 + FlagName(flag)[0] as int == Key(Toggle(flag))
  {
  }

  lemma NameHasKey(f: Field)
    ensures |NameText(f)| * 256 + NameText(f)[0] == Key(f)
  {
    match f {
      case Toggle(flag) => hide FlagName; FlagHasKey(flag);
      case _ =>
    }
  }

  lemma KeysDiffer(f: Field, g: Field)
    requires Key(f) == Key(g)
    ensures f == g
  {
  }

  lemma NamesDiffer(f: Field, g: Field)
    requires NameText(f) == NameText(g)
    ensures f == g
  {
    hide Key, NameText;
    NameHasKey(f);
    NameHasKey(g);
    KeysDiffer(f, g);
  }

  /** Every option is found under its own name. */
  lemma {:induction false} FieldBehindName(f: Field, k: nat)
    requires k <= Place(f)
    ensures FieldFrom(NameText(f), k) == Some(f)
    decreases |FIELDS| - k
  {
    hide NameText, Place;
    if NameText(FIELDS[k]) == NameText(f) {
      NamesDiffer(FIELDS[k], f);
    } else {
      assert k != Place(f);
      FieldBehindName(f, k + 1);
    }
  }

  lemma NameIsSafe(f: Field)
    ensures EQUALS !in NameText(f) && AMPERSAND !in NameText(f) && SLASH !in NameText(f)
  {
    hide Name;
    assert forall i | 0 <= i < |NameText(f)| :: 0x41 <= NameText(f)[i];
  }

  // ---- Values of options ----

  lemma AtoiInvertsItoaIff(n: int)
    ensures Atoi(Signed(n)) == Some(n) <==> -0x8000_0000_0000_0000 <= n < 0x8000_0000_0000_0000
  {
    hide Denoted, Decimal;
    var s := Signed(n);
    if n < 0 {
      DecimalDenotes(-n);
      assert s[1..] == Decimal(-n);
    } else {
      DecimalDenotes(n);
      assert s[0] >= 0x30;
    }
  }

  predicate BoolWord(s: Text) {
    s == Ascii("1") || s == Ascii("TRUE") || s == Ascii("True") || s == Ascii("0") || s == Ascii("FALSE")
    || s == Ascii("False")
  }

  /** The names of TLS configurations that the parser leaves as they are. */
  predicate CanonicalTls(t: Text) {
    !BoolWord(t) && (TlsWord(Lower(t)) ==> Lower(t) == t)
  }

  predicate LettersAndHyphens(s: Text) {
    forall i | 0 <= i < |s| :: Unreserved(s[i])
  }

  /** Escaping does nothing to such a text, and nothing else is escaped to it. */
  lemma EscapeOnlyItself(t: Text, w: Text)
    requires LettersAndHyphens(w)
    ensures Escape(t, true) == w <==> t == w
  {
    EscapePlain(w, true);
    UnescapeInvertsEscape(t, true);
    UnescapeInvertsEscape(w, true);
  }

  lemma BoolWordsAreSafe(w: Text)
    requires ReadBool(w).Some?
    ensures LettersAndHyphens(w)
  {
  }

  lemma TlsWordsAreSafe(w: Text)
    requires TlsWord(Lower(w))
    ensures LettersAndHyphens(w)
  {
    forall i | 0 <= i < |w|
      ensures Unreserved(w[i])
    {
      assert Lower(w)[i] == 0x2d || 0x61 <= Lower(w)[i] <= 0x7a;
    }
  }

  lemma TlsReadBackIff(t: Text)
    ensures ReadTls(Escape(t, true)) == Some(t) <==> CanonicalTls(t)
  {
    hide ReadBool, TlsWord, Escape, Unescape, Lower, BoolWord, LettersAndHyphens;
    var e := Escape(t, true);
    UnescapeInvertsEscape(t, true);
    if ReadBool(e).Some? {
      BoolWordsAreSafe(e);
      EscapeOnlyItself(t, e);
      BoolNames(t);
    } else if TlsWord(Lower(e)) {
      TlsWordsAreSafe(e);
      EscapeOnlyItself(t, e);
      BoolNames(t);
    } else {
      if BoolWord(t) {
        BoolNames(t);
        BoolWordsAreSafe(t);
        EscapeOnlyItself(t, t);
      }
      if TlsWord(Lower(t)) {
        TlsWordsAreSafe(t);
        EscapeOnlyItself(t, t);
      }
    }
  }

  lemma BoolNames(t: Text)
    ensures BoolWord(t) <==>
            ReadBool(t).Some? && t != (if ReadBool(t).value then Ascii("true") else Ascii("false"))
    ensures ReadBool(t).Some? ==> !TlsWord(Lower(t))
  {
    assert Ascii("true")[0] == 0x74 && Ascii("TRUE")[0] == Ascii("True")[0] == 0x54;
    assert Ascii("false")[0] == 0x66 && Ascii("FALSE")[0] == Ascii("False")[0] == 0x46;
  }

  // ---- One option ----

  predicate Int64(n: int) {
    -0x8000_0000_0000_0000 <= n < 0x8000_0000_0000_0000
  }

  predicate DurationComesBack(env: Env, n: int) {
    n == 0 || (n > 0 && env.duration(env.durationText(n)) == Some(n))
  }

  /** What makes an option survive writing and reading. */
  predicate Recoverable(env: Env, s: Settings, f: Field) {
    match f
    case Toggle(_) => true
    case Collation => true
    case ServerPubKey => true
    case Loc => s.loc == UTC() || (s.loc != [] && env.locationKnown(s.loc))
    case ReadTimeout => DurationComesBack(env, s.readTimeout)
    case Timeout => DurationComesBack(env, s.timeout)
    case WriteTimeout => DurationComesBack(env, s.writeTimeout)
    case Tls => CanonicalTls(s.tls)
    case MaxAllowedPacket => Int64(s.maxAllowedPacket)
  }

  /** An option that is written is read as its value, and one that is not has the default, if
      and only if the option is recoverable. */
  lemma FieldComesBackIff(env: Env, s: Settings, f: Field)
    ensures (if IsWritten(s, f) then ReadField(env, f, FieldText(env, f, Get(s, f))) == Ok(Get(s, f))
             else Get(s, f) == Get(Defaults(), f))
            <==> Recoverable(env, s, f)
  {
    hide Escape, Unescape, ReadTls, Atoi, Signed, CanonicalTls, UTC;
    match f {
      case Toggle(flag) => BoolTexts();
      case Loc => UnescapeInvertsEscape(s.loc, true); Constants();
      case ServerPubKey => UnescapeInvertsEscape(s.serverPubKey, true);
      case Tls =>
        TlsReadBackIff(s.tls);
        Constants();
      case MaxAllowedPacket => AtoiInvertsItoaIff(s.maxAllowedPacket);
      case _ =>
    }
  }

  lemma Constants()
    ensures UTC() != [] && CanonicalTls([])
  {
  }

  lemma BoolTexts()
    ensures ReadBool(Ascii("true")) == Some(true) && ReadBool(Ascii("false")) == Some(false)
  {
    assert Ascii("true")[0] == 0x74 && Ascii("false")[0] == 0x66;
    assert Ascii("TRUE")[0] == Ascii("True")[0] == 0x54;
  }

  predicate Undelimited(t: Text) {
    SLASH !in t && AMPERSAND !in t
  }

  /** The options that are written as they are hold no delimiter. */
  predicate CleanField(env: Env, s: Settings, f: Field) {
    match f
    case Collation => Undelimited(s.collation)
    case ReadTimeout => s.readTimeout > 0 ==> Undelimited(env.durationText(s.readTimeout))
    case Timeout => s.timeout > 0 ==> Undelimited(env.durationText(s.timeout))
    case WriteTimeout => s.writeTimeout > 0 ==> Undelimited(env.durationText(s.writeTimeout))
    case _ => true
  }

  lemma FieldTextIsClean(env: Env, s: Settings, f: Field)
    requires CleanField(env, s, f) && IsWritten(s, f)
    ensures Undelimited(FieldText(env, f, Get(s, f)))
  {
    hide Escape, Signed, Decimal;
    match f {
      case Loc => EscapeIsSafe(s.loc, true);
      case ServerPubKey => EscapeIsSafe(s.serverPubKey, true);
      case Tls => EscapeIsSafe(s.tls, true);
      case MaxAllowedPacket => SignedIsClean(s.maxAllowedPacket);
      case _ =>
    }
  }

  lemma SignedIsClean(n: int)
    ensures Undelimited(Signed(n))
  {
    hide Decimal;
    var digits := Decimal(if n < 0 then -n else n);
    assert forall i | 0 <= i < |digits| :: 0x30 <= digits[i];
  }

  lemma PieceSplits(name: Text, value: Text)
    requires EQUALS !in name
    ensures var k := First(Piece(name, value), EQUALS);
            k < |Piece(name, value)| && Piece(name, value)[..k] == name && Piece(name, value)[k + 1..] == value
  {
    var p := Piece(name, value);
    assert forall i | 0 <= i < |name| :: p[i] == name[i];
    assert p[|name|] == EQUALS;
    FirstIs(p, EQUALS, |name|);
  }

  lemma PieceIsClean(name: Text, value: Text)
    requires Undelimited(name) && Undelimited(value)
    ensures Undelimited(Piece(name, value))
  {
  }

  // ---- All options ----

  /** The settings that are not options. */
  function Others(s: Settings): (Text, Text, Text, Text, Text, map<Text, Text>, Text) {
    (s.user, s.passwd, s.net, s.addr, s.dbName, s.params, s.attributes)
  }

  lemma GetSet(s: Settings, f: Field, v: Value, g: Field)
    requires Fits(f, v)
    ensures Get(Set(s, f, v), g) == if f == g then v else Get(s, g)
    ensures Others(Set(s, f, v)) == Others(s)
  {
  }

  lemma FieldsTellApart(s: Settings, t: Settings)
    requires Others(s) == Others(t) && forall k | 0 <= k < |FIELDS| :: Get(s, FIELDS[k]) == Get(t, FIELDS[k])
    ensures s == t
  {
    forall f: Field
      ensures Get(s, f) == Get(t, f)
    {
      assert FIELDS[Place(f)] == f;
    }
    forall flag: Flag
      ensures flag in s.flags <==> flag in t.flags
    {
      assert Get(s, Toggle(flag)) == Get(t, Toggle(flag));
    }
    assert s.flags == t.flags;
    assert Get(s, Collation) == Get(t, Collation) && Get(s, Loc) == Get(t, Loc);
    assert Get(s, Timeout) == Get(t, Timeout) && Get(s, ReadTimeout) == Get(t, ReadTimeout);
    assert Get(s, WriteTimeout) == Get(t, WriteTimeout) && Get(s, MaxAllowedPacket) == Get(t, MaxAllowedPacket);
    assert Get(s, Tls) == Get(t, Tls) && Get(s, ServerPubKey) == Get(t, ServerPubKey);
  }

  ghost predicate Writable(env: Env, s: Settings) {
    forall k | 0 <= k < |FIELDS| :: Recoverable(env, s, FIELDS[k]) && CleanField(env, s, FIELDS[k])
  }

  /** `t` has the first `k` options of `s`, the defaults for the others, and the rest of `base`. */
  ghost predicate Upto(t: Settings, s: Settings, base: Settings, k: nat)
    requires k <= |FIELDS|
  {
    Others(t) == Others(base)
    && forall j | 0 <= j < |FIELDS| :: Get(t, FIELDS[j]) == Get(if j < k then s else Defaults(), FIELDS[j])
  }

  lemma ApplyFieldPiece(env: Env, t: Settings, s: Settings, base: Settings, k: nat)
    requires k < |FIELDS| && Upto(t, s, base, k) && Recoverable(env, s, FIELDS[k])
    ensures var r := ApplyAll(env, t, FieldPiece(env, s, FIELDS[k]));
            r.Ok? && Upto(r.value, s, base, k + 1)
  {
    hide ReadField, FieldText, IsWritten, Recoverable, NameText, Get, Set, FieldFrom, FIELDS, Piece, Others, Defaults;
    var f := FIELDS[k];
    FieldComesBackIff(env, s, f);
    if IsWritten(s, f) {
      var value := FieldText(env, f, Get(s, f));
      NameIsSafe(f);
      PieceSplits(NameText(f), value);
      FieldBehindName(f, 0);
      var r := Set(t, f, Get(s, f));
      assert ApplyAll(env, t, []) == Ok(t);
      assert ApplyAll(env, t, [Piece(NameText(f), value)]) == Ok(r);
      forall j | 0 <= j < |FIELDS|
        ensures Get(r, FIELDS[j]) == Get(if j < k + 1 then s else Defaults(), FIELDS[j])
        ensures Others(r) == Others(t)
      {
        GetSet(t, f, Get(s, f), FIELDS[j]);
        if FIELDS[j] == f { FieldsDiffer(j, k); }
      }
    } else {
      assert ApplyAll(env, t, []) == Ok(t);
    }
  }

  lemma FieldsDiffer(j: nat, k: nat)
    requires j < |FIELDS| && k < |FIELDS| && FIELDS[j] == FIELDS[k]
    ensures j == k
  {
  }

  lemma {:induction false} ApplyAllSplits(env: Env, s: Settings, a: seq<Text>, b: seq<Text>)
    ensures ApplyAll(env, s, a + b)
            == var r := ApplyAll(env, s, a); if r.Ok? then ApplyAll(env, r.value, b) else r
    decreases |b|
  {
    hide Apply;
    if b == [] {
      assert a + b == a;
    } else {
      var front := b[..|b| - 1];
      assert (a + b)[..|a + b| - 1] == a + front;
      ApplyAllSplits(env, s, a, front);
    }
  }

  lemma {:induction false} ApplyFieldPieces(env: Env, base: Settings, s: Settings, k: nat)
    requires k <= |FIELDS| && Upto(base, s, base, 0) && Writable(env, s)
    ensures var r := ApplyAll(env, base, FieldPieces(env, s, k));
            r.Ok? && Upto(r.value, s, base, k)
    decreases k
  {
    hide Upto, Recoverable, CleanField, FieldPiece, FIELDS, Apply;
    if k > 0 {
      ApplyFieldPieces(env, base, s, k - 1);
      var t := ApplyAll(env, base, FieldPieces(env, s, k - 1)).value;
      ApplyFieldPiece(env, t, s, base, k - 1);
      ApplyAllSplits(env, base, FieldPieces(env, s, k - 1), FieldPiece(env, s, FIELDS[k - 1]));
    }
  }

  // ---- Further parameters ----

  /** A name that is no option and holds no delimiter. */
  predicate FreeName(name: Text) {
    Undelimited(name) && EQUALS !in name
    && FieldFrom(name, 0).None? && Refused(name).None? && !IsAttributes(name)
  }

  function Taken(params: map<Text, Text>, order: seq<Text>): map<Text, Text>
    requires forall n | n in order :: n in params
  {
    map n | n in order :: params[n]
  }

  lemma ApplyParam(env: Env, t: Settings, name: Text, value: Text)
    requires FreeName(name)
    ensures Apply(env, t, Piece(name, Escape(value, true))) == Ok(t.(params := t.params[name := value]))
  {
    hide FieldFrom, Refused, IsAttributes, Escape, Unescape, Piece, Undelimited;
    PieceSplits(name, Escape(value, true));
    UnescapeInvertsEscape(value, true);
  }

  lemma {:induction false} ApplyParamPieces(env: Env, t: Settings, params: map<Text, Text>, order: seq<Text>)
    requires t.params == map[]
    requires forall n | n in order :: n in params && FreeName(n)
    ensures ApplyAll(env, t, ParamPieces(params, order)) == Ok(t.(params := Taken(params, order)))
    decreases |order|
  {
    hide FreeName, Apply, Escape, Piece;
    if order == [] {
      assert Taken(params, order) == map[];
    } else {
      var front, name := order[..|order| - 1], order[|order| - 1];
      ApplyParamPieces(env, t, params, front);
      assert name in order;
      ApplyParam(env, t.(params := Taken(params, front)), name, params[name]);
      assert Taken(params, order) == Taken(params, front)[name := params[name]];
      var pieces := ParamPieces(params, order);
      assert pieces[..|pieces| - 1] == ParamPieces(params, front);
    }
  }

  // ---- The text behind the slash ----

  lemma LastSplit(q: Text, sep: Byte, p: Text)
    requires sep !in p
    ensures var all := q + ([sep] + p);
            Last(all, sep) == |q| && all[..|q|] == q && all[|q| + 1..] == p
  {
    var all := q + ([sep] + p);
    assert all[|q|] == sep;
    assert forall i | |q| < i < |all| :: all[i] == p[i - |q| - 1];
    LastIs(all, sep, |q|);
  }

  lemma QueryStart(p: Text)
    ensures Query([p]) == [QUESTION] + p
  {
    assert Query([]) == [];
    EmptyLeft([QUESTION] + p);
  }

  lemma QueryStep(front: seq<Text>, p: Text)
    requires front != [] && Query(front) != []
    ensures var q := Query(front + [p]);
            q != [] && q[0] == Query(front)[0] && q[1..] == Query(front)[1..] + ([AMPERSAND] + p)
  {
    assert (front + [p])[..|front|] == front;
  }

  lemma PiecesStep(q: Text, p: Text)
    requires AMPERSAND !in p
    ensures Pieces(p, AMPERSAND) == [p]
    ensures Pieces(q + ([AMPERSAND] + p), AMPERSAND) == Pieces(q, AMPERSAND) + [p]
  {
    hide Last;
    LastIs(p, AMPERSAND, -1);
    LastSplit(q, AMPERSAND, p);
  }

  /** Splitting what was written gives the pieces back. */
  lemma {:induction false} PiecesOfQuery(pieces: seq<Text>)
    requires pieces != [] && forall p | p in pieces :: AMPERSAND !in p
    ensures var q := Query(pieces);
            q != [] && q[0] == QUESTION && Pieces(q[1..], AMPERSAND) == pieces
    decreases |pieces|
  {
    hide Pieces, Query;
    var front, p := pieces[..|pieces| - 1], pieces[|pieces| - 1];
    assert p in pieces;
    if front == [] {
      QueryStart(p);
      assert pieces == [p];
      PiecesStep([], p);
    } else {
      PiecesOfQuery(front);
      assert pieces == front + [p];
      QueryStep(front, p);
      PiecesStep(Query(front)[1..], p);
    }
  }

  lemma {:induction false} QueryHasNoSlash(pieces: seq<Text>)
    requires forall p | p in pieces :: SLASH !in p
    ensures SLASH !in Query(pieces)
    decreases |pieces|
  {
    if pieces != [] {
      QueryHasNoSlash(pieces[..|pieces| - 1]);
      assert pieces[|pieces| - 1] in pieces;
    }
  }

  lemma ReadRight(env: Env, base: Settings, dbName: Text, pieces: seq<Text>)
    requires forall p | p in pieces :: AMPERSAND !in p
    ensures ParseRight(env, base, Escape(dbName, false) + Query(pieces))
            == var r := ApplyAll(env, base, pieces); if r.Ok? then Ok(r.value.(dbName := dbName)) else r
  {
    hide Escape, Unescape, Pieces, Apply;
    var db, query := Escape(dbName, false), Query(pieces);
    var right := db + query;
    EscapeIsSafe(dbName, false);
    UnescapeInvertsEscape(dbName, false);
    assert forall i | 0 <= i < |db| :: right[i] == db[i];
    if pieces != [] {
      PiecesOfQuery(pieces);
      assert right[|db|] == query[0];
    }
    FirstIs(right, QUESTION, |db|);
    assert right[..|db|] == db;
    if pieces != [] {
      assert right[|db| + 1..] == query[1..];
    }
  }

  // ---- The text in front of it ----

  lemma AddressReadBackIff(net: Text, addr: Text)
    ensures Address(AddressText(net, addr)) == Ok((net, addr))
            <==> OPEN !in net && (net == [] ==> addr == [])
  {
    var rest := AddressText(net, addr);
    if net != [] {
      assert forall i | 0 <= i < |net| :: rest[i] == net[i];
      if OPEN !in net {
        if addr != [] { assert rest[|net|] == OPEN; }
        FirstIs(rest, OPEN, |net|);
        if addr != [] {
          assert rest[|net| + 1..|rest| - 1] == addr && rest[..|net|] == net;
        } else {
          assert rest == net;
        }
      } else {
        assert First(rest, OPEN) < |net|;
      }
    }
  }

  lemma LeftSplits(creds: Text, rest: Text)
    requires AT !in rest
    ensures var c, a := Credentials(creds), Address(rest);
            ParseLeft(creds + ([AT] + rest))
            == if a.Err? then Err(a.error)
               else Ok(Defaults().(user := c.0, passwd := c.1, net := a.value.0, addr := a.value.1))
  {
    hide Credentials, Address;
    LastSplit(creds, AT, rest);
  }

  /** What the parser makes of the credentials as they are written. */
  function Reread(user: Text, passwd: Text): (Text, Text) {
    if user == [] then ([], []) else Credentials(user + if passwd == [] then [] else [COLON] + passwd)
  }

  lemma CredentialsReadBackIff(user: Text, passwd: Text)
    ensures Reread(user, passwd) == (user, passwd) <==> COLON !in user && (user == [] ==> passwd == [])
  {
    if user != [] {
      var creds := user + if passwd == [] then [] else [COLON] + passwd;
      assert forall i | 0 <= i < |user| :: creds[i] == user[i];
      if COLON in user {
        assert First(creds, COLON) < |user|;
      } else {
        if passwd != [] { assert creds[|user|] == COLON; }
        FirstIs(creds, COLON, |user|);
        assert creds[..|user|] == user;
        if passwd != [] { assert creds[|user| + 1..] == passwd; }
      }
    }
  }

  lemma ReadLeft(user: Text, passwd: Text, net: Text, addr: Text)
    requires AT !in net && AT !in addr && OPEN !in net && (net == [] ==> addr == [])
    ensures var c := Reread(user, passwd);
            ParseLeft(CredentialText(user, passwd) + AddressText(net, addr))
            == Ok(Defaults().(user := c.0, passwd := c.1, net := net, addr := addr))
  {
    hide Address, Credentials;
    AddressReadBackIff(net, addr);
    var rest := AddressText(net, addr);
    assert AT !in rest;
    if user == [] {
      EmptyLeft(rest);
      LastIs(rest, AT, -1);
      assert rest[0..] == rest;
    } else {
      var pw := if passwd == [] then [] else [COLON] + passwd;
      Associate(user, pw, [AT]);
      Associate(user + pw, [AT], rest);
      LeftSplits(user + pw, rest);
    }
  }

  // ---- The round trip ----

  /** The network and address as they can be written. */
  predicate Delimited(s: Settings) {
    AT !in s.net && AT !in s.addr && OPEN !in s.net
  }

  lemma PiecesAreClean(env: Env, s: Settings, k: nat)
    requires k <= |FIELDS| && Writable(env, s)
    ensures forall p | p in FieldPieces(env, s, k) :: Undelimited(p)
    decreases k
  {
    hide FieldText, IsWritten, NameText, Piece, FIELDS, CleanField, Recoverable;
    if k > 0 {
      PiecesAreClean(env, s, k - 1);
      var f := FIELDS[k - 1];
      if IsWritten(s, f) {
        NameIsSafe(f);
        FieldTextIsClean(env, s, f);
        PieceIsClean(NameText(f), FieldText(env, f, Get(s, f)));
      }
    }
  }

  lemma {:induction false} ParamPiecesAreClean(params: map<Text, Text>, order: seq<Text>)
    requires forall n | n in order :: n in params && FreeName(n)
    ensures forall p | p in ParamPieces(params, order) :: Undelimited(p)
    decreases |order|
  {
    hide Escape, Piece;
    if order != [] {
      var name := order[|order| - 1];
      assert name in order;
      ParamPiecesAreClean(params, order[..|order| - 1]);
      EscapeIsSafe(params[name], true);
      PieceIsClean(name, Escape(params[name], true));
    }
  }

  /** What is read from a written name, whatever its credentials. */
  lemma ReadWritten(env: Env, s: Settings, order: seq<Text>)
    requires Writable(env, s) && Delimited(s) && Lists(order, s.params) && forall n | n in order :: FreeName(n)
    requires s.attributes == [] && Normalized(env, s) == Ok(s)
    ensures var c := Reread(s.user, s.passwd);
            Parsed(env, Formatted(env, s, order)) == Ok(s.(user := c.0, passwd := c.1))
  {
    hide Writable, FreeName, Credentials, AddressText, CredentialText, ParseLeft, ParseRight, Normalized, Query, FIELDS,
      FieldPieces, ParamPieces, ApplyAll, Reread;
    var c := Reread(s.user, s.passwd);
    var left := CredentialText(s.user, s.passwd) + AddressText(s.net, s.addr);
    var base := Defaults().(user := c.0, passwd := c.1, net := s.net, addr := s.addr);
    NetIsWritten(env, s);
    ReadLeft(s.user, s.passwd, s.net, s.addr);
    var pieces := FieldPieces(env, s, |FIELDS|) + ParamPieces(s.params, order);
    PiecesAreClean(env, s, |FIELDS|);
    ParamPiecesAreClean(s.params, order);
    assert forall p | p in pieces :: Undelimited(p);
    ReadRight(env, base, s.dbName, pieces);
    OptionsComeBack(env, s, base, order);
    var right := Escape(s.dbName, false) + Query(pieces);
    EscapeIsSafe(s.dbName, false);
    QueryHasNoSlash(pieces);
    LastSplit(left, SLASH, right);
    CredentialsDoNotMatter(env, s, c);
  }

  lemma NetIsWritten(env: Env, s: Settings)
    requires Normalized(env, s) == Ok(s)
    ensures s.net != [] && s.addr != []
  {
  }

  lemma CredentialsDoNotMatter(env: Env, s: Settings, c: (Text, Text))
    requires Normalized(env, s) == Ok(s)
    ensures Normalized(env, s.(user := c.0, passwd := c.1)) == Ok(s.(user := c.0, passwd := c.1))
  {
  }

  lemma OptionsComeBack(env: Env, s: Settings, base: Settings, order: seq<Text>)
    requires Writable(env, s) && Lists(order, s.params) && forall n | n in order :: FreeName(n)
    requires base == Defaults().(user := base.user, passwd := base.passwd, net := s.net, addr := s.addr)
    requires s.attributes == []
    ensures var r := ApplyAll(env, base, FieldPieces(env, s, |FIELDS|) + ParamPieces(s.params, order));
            r.Ok? && r.value.(dbName := s.dbName) == s.(user := base.user, passwd := base.passwd)
  {
    hide Writable, FreeName, FieldPieces, ParamPieces, ApplyAll;
    forall j | 0 <= j < |FIELDS|
      ensures Get(base, FIELDS[j]) == Get(Defaults(), FIELDS[j])
    {
    }
    ApplyFieldPieces(env, base, s, |FIELDS|);
    var t := ApplyAll(env, base, FieldPieces(env, s, |FIELDS|)).value;
    ApplyParamPieces(env, t, s.params, order);
    ApplyAllSplits(env, base, FieldPieces(env, s, |FIELDS|), ParamPieces(s.params, order));
    assert Taken(s.params, order) == s.params;
    var r := t.(params := s.params);
    var goal := s.(user := base.user, passwd := base.passwd);
    forall j | 0 <= j < |FIELDS|
      ensures Get(r.(dbName := s.dbName), FIELDS[j]) == Get(goal, FIELDS[j])
    {
      assert Get(t, FIELDS[j]) == Get(s, FIELDS[j]);
      GetIgnoresOthers(t, r.(dbName := s.dbName), FIELDS[j]);
      GetIgnoresOthers(s, goal, FIELDS[j]);
    }
    FieldsTellApart(r.(dbName := s.dbName), goal);
  }

  lemma GetIgnoresOthers(s: Settings, t: Settings, f: Field)
    requires t == s.(user := t.user, passwd := t.passwd, net := t.net, addr := t.addr, dbName := t.dbName,
                     params := t.params, attributes := t.attributes)
    ensures Get(s, f) == Get(t, f)
  {
  }

  /** Parsing inverts formatting, in whatever order the further parameters are written, if and
      only if the user has no colon and a password comes with a user. */
  lemma ParseInvertsFormatIff(env: Env, s: Settings, order: seq<Text>)
    requires Writable(env, s) && Delimited(s) && Lists(order, s.params) && forall n | n in order :: FreeName(n)
    requires s.attributes == [] && Normalized(env, s) == Ok(s)
    ensures Parsed(env, Formatted(env, s, order)) == Ok(s)
            <==> COLON !in s.user && (s.user == [] ==> s.passwd == [])
  {
    hide Writable, FreeName, Delimited, Normalized, Parsed, Formatted;
    ReadWritten(env, s, order);
    CredentialsReadBackIff(s.user, s.passwd);
    var c := Reread(s.user, s.passwd);
    var r := s.(user := c.0, passwd := c.1);
    assert r.user == c.0 && r.passwd == c.1;
  }

  // ---- The names of replicas ----

  /** Sprintf("%s:%s@(%s:%d)/%s", user, password, host, port, db) */
  function ReplicaName(user: Text, passwd: Text, host: Text, port: int, db: Text): Text {
    user + ([COLON] + passwd) + ([AT] + ([OPEN] + (HostPort(host, port) + [CLOSE]))) + ([SLASH] + db)
  }

  function HostPort(host: Text, port: int): Text {
    host + ([COLON] + Signed(port))
  }

  predicate PlainHost(host: Text) {
    AT !in host && COLON !in host && OPEN_BRACKET !in host && CLOSE_BRACKET !in host
  }

  predicate PlainName(db: Text) {
    SLASH !in db && QUESTION !in db && PERCENT !in db
  }

  lemma SignedAvoids(n: int)
    ensures forall i | 0 <= i < |Signed(n)| :: Signed(n)[i] == MINUS || 0x30 <= Signed(n)[i] <= 0x39
  {
    hide Decimal;
    var digits := Decimal(if n < 0 then -n else n);
    assert forall i | 0 <= i < |digits| :: 0x30 <= digits[i] <= 0x39;
  }

  lemma HostPortHasPort(host: Text, port: int)
    requires PlainHost(host)
    ensures HostPort(host, port) != [] && AT !in HostPort(host, port) && HasPort(HostPort(host, port))
  {
    hide Signed;
    SignedAvoids(port);
    var digits := Signed(port);
    assert COLON !in digits && OPEN_BRACKET !in digits && CLOSE_BRACKET !in digits && AT !in digits;
    LastSplit(host, COLON, digits);
  }

  lemma ReplicaAddress(hostPort: Text)
    ensures Address([OPEN] + (hostPort + [CLOSE])) == Ok(([], hostPort))
  {
    var rest := [OPEN] + (hostPort + [CLOSE]);
    FirstIs(rest, OPEN, 0);
    assert rest[1..|rest| - 1] == hostPort;
  }

  lemma PlainRight(env: Env, s: Settings, db: Text)
    requires PlainName(db)
    ensures ParseRight(env, s, db) == Ok(s.(dbName := db))
  {
    FirstIs(db, QUESTION, |db|);
    UnescapePlain(db, false);
    assert db[..|db|] == db;
  }

  /** The configuration a replica's name should stand for. */
  function ReplicaSettings(user: Text, passwd: Text, host: Text, port: int, db: Text): Settings {
    Defaults().(user := user, passwd := passwd, net := Tcp(), addr := HostPort(host, port), dbName := db)
  }

  lemma ReplicaNormalized(env: Env, s: Settings)
    requires s == Defaults().(user := s.user, passwd := s.passwd, addr := s.addr, dbName := s.dbName)
    requires s.addr != [] && HasPort(s.addr)
    ensures Normalized(env, s) == Ok(s.(net := Tcp()))
  {
    assert InterpolateParams !in s.flags;
  }

  lemma ReadReplica(creds: Text, user: Text, passwd: Text)
    requires creds == user + ([COLON] + passwd)
    ensures Credentials(creds) == (user, passwd) <==> COLON !in user
  {
    assert forall i | 0 <= i < |user| :: creds[i] == user[i];
    assert creds[|user|] == COLON;
    if COLON in user {
      assert First(creds, COLON) < |user|;
    } else {
      FirstIs(creds, COLON, |user|);
      assert creds[..|user|] == user && creds[|user| + 1..] == passwd;
    }
  }

  /** The name that initMysqlDB builds is read as the replica's configuration if and only if
      the user has no colon; the password may be anything at all. */
  lemma ReplicaNameReadBackIff(env: Env, user: Text, passwd: Text, host: Text, port: int, db: Text)
    requires PlainHost(host) && PlainName(db)
    ensures Parsed(env, ReplicaName(user, passwd, host, port, db))
            == Ok(ReplicaSettings(user, passwd, host, port, db))
            <==> COLON !in user
  {
    hide Credentials, Address, Normalized, ParseLeft, ParseRight, HostPort, HasPort, PlainHost;
    var creds, hostPort := user + ([COLON] + passwd), HostPort(host, port);
    var rest := [OPEN] + (hostPort + [CLOSE]);
    HostPortHasPort(host, port);
    assert AT !in rest;
    LeftSplits(creds, rest);
    ReplicaAddress(hostPort);
    ReadReplica(creds, user, passwd);
    var c := Credentials(creds);
    var base := Defaults().(user := c.0, passwd := c.1, addr := hostPort);
    PlainRight(env, base, db);
    LastSplit(creds + ([AT] + rest), SLASH, db);
    ReplicaNormalized(env, base.(dbName := db));
    var r := base.(dbName := db).(net := Tcp());
    assert r.user == c.0 && r.passwd == c.1;
  }

  // ---- Ports ----

  predicate NoBrackets(a: Text) {
    OPEN_BRACKET !in a && CLOSE_BRACKET !in a
  }

  /** A host in brackets, as the standard writes IPv6 addresses. */
  predicate Bracketed(a: Text) {
    a != [] && a[0] == OPEN_BRACKET && First(a, CLOSE_BRACKET) == |a| - 1 && OPEN_BRACKET !in a[1..]
  }

  lemma BracketedWithPort(a: Text, port: Text)
    requires COLON !in port && NoBrackets(port)
    ensures HasPort([OPEN_BRACKET] + a + [CLOSE_BRACKET] + ([COLON] + port)) <==> NoBrackets(a)
  {
    var b := [OPEN_BRACKET] + a + [CLOSE_BRACKET];
    var r := b + ([COLON] + port);
    LastSplit(b, COLON, port);
    assert forall i | 0 <= i < |a| :: r[i + 1] == a[i];
    assert r[1..] == a + ([CLOSE_BRACKET] + ([COLON] + port));
    if CLOSE_BRACKET in a {
      assert First(r, CLOSE_BRACKET) <= |a|;
    } else {
      assert r[|a| + 1] == CLOSE_BRACKET;
      FirstIs(r, CLOSE_BRACKET, |a| + 1);
      assert r[|a| + 2..] == [COLON] + port;
    }
  }

  /** Both questions about a bracketed text ask where its first closing bracket is. */
  lemma OpenBracketWithPort(a: Text, port: Text)
    requires a != [] && a[0] == OPEN_BRACKET && COLON !in a && COLON !in port && NoBrackets(port)
    ensures HasPort(a + ([COLON] + port)) <==> Bracketed(a)
  {
    hide Last, First;
    var r := a + ([COLON] + port);
    LastSplit(a, COLON, port);
    assert r[1..] == a[1..] + ([COLON] + port);
    var end := First(a, CLOSE_BRACKET);
    if end < |a| {
      assert forall i | 0 <= i < end :: r[i] == a[i];
      FirstIs(r, CLOSE_BRACKET, end);
      assert r[end + 1..] == a[end + 1..] + ([COLON] + port);
    } else {
      FirstIs(r, CLOSE_BRACKET, |r|);
    }
  }

  lemma PlainWithPort(a: Text, port: Text)
    requires COLON !in a && COLON !in port && NoBrackets(port)
    ensures HasPort(a + ([COLON] + port)) <==> NoBrackets(a) || Bracketed(a)
  {
    hide Last, First;
    LastSplit(a, COLON, port);
    if a != [] && a[0] == OPEN_BRACKET {
      OpenBracketWithPort(a, port);
    }
  }

  /** A given address is kept; over TCP the port is added to one that has none. */
  lemma GivenAddress(net: Text, addr: Text)
    requires addr != []
    ensures net != Ascii("tcp") || HasPort(addr) ==> NormalAddr(net, addr) == Some(addr)
    ensures net == Ascii("tcp") && !HasPort(addr) ==>
              NormalAddr(net, addr) == Some(if COLON in addr then [0x5b] + addr + [0x5d] + Ascii(":3306")
                                            else addr + Ascii(":3306"))
    ensures net == Ascii("tcp") && NoBrackets(addr) ==> HasPort(NormalAddr(net, addr).value)
  {
    hide HasPort;
    PortIsAddedIff(addr);
  }

  /** Adding the default port gives an address with a port, and so a second normalization
      changes nothing, except for brackets: "[::1]" becomes "[[::1]]:3306". */
  lemma PortIsAddedIff(a: Text)
    ensures HasPort(EnsureHavePort(a))
            <==> HasPort(a) || NoBrackets(a) || (COLON !in a && Bracketed(a))
    ensures EnsureHavePort(EnsureHavePort(a)) == EnsureHavePort(a)
            <==> HasPort(a) || NoBrackets(a) || (COLON !in a && Bracketed(a))
  {
    hide HasPort, Bracketed, First, Last;
    var port := Ascii("3306");
    assert COLON !in port && NoBrackets(port);
    assert Ascii(":3306") == [COLON] + port;
    if !HasPort(a) {
      if COLON in a {
        BracketedWithPort(a, port);
      } else {
        PlainWithPort(a, port);
      }
    }
  }
}
