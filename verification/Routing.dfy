/** Read/write splitting: which commands go to a replica, and to which one. */
module Routing {
  import opened Bytes

  const COM_QUERY: Byte := 3

  datatype Target = Main | Replica

  /** What the three patterns make of a statement. */
  datatype Kind = Select | Begin | End | Plain

  // ---- Recognising statements ----

  function Lower(b: Byte): Byte {
    if 0x41 <= b <= 0x5a then b + 0x20 else b
  }

  /** A case-insensitive prefix test against lower-case ASCII. */
  predicate HasPrefix(s: seq<Byte>, prefix: string)
    requires forall i | 0 <= i < |prefix| :: prefix[i] as int < 256
  {
    |prefix| <= |s| && forall i | 0 <= i < |prefix| :: Lower(s[i]) == prefix[i] as int
  }

  predicate MatchSelect(s: seq<Byte>) {
    HasPrefix(s, "select")
  }

  predicate MatchBegin(s: seq<Byte>) {
    HasPrefix(s, "begin") || HasPrefix(s, "start transaction")
  }

  predicate MatchEnd(s: seq<Byte>) {
    HasPrefix(s, "commit") || HasPrefix(s, "rollback")
  }

  predicate Trimmed(b: Byte) {
    b == 0x20 || b == 0x0d || b == 0x0a
  }

  function TrimLeft(s: seq<Byte>): seq<Byte> {
    if s != [] && Trimmed(s[0]) then TrimLeft(s[1..]) else s
  }

  function TrimRight(s: seq<Byte>): seq<Byte> {
    if s != [] && Trimmed(s[|s| - 1]) then TrimRight(s[..|s| - 1]) else s
  }

  /** A whole command packet: header, command byte, statement. */
  predicate IsQuery(packet: seq<Byte>) {
    |packet| > 5 && packet[4] == COM_QUERY
  }

  function Statement(packet: seq<Byte>): seq<Byte>
    requires IsQuery(packet)
  {
    TrimRight(TrimLeft(packet[5..]))
  }

  function KindOf(packet: seq<Byte>): Kind {
    if !IsQuery(packet) then Plain
    else
      var sql := Statement(packet);
      if MatchSelect(sql) then Select
      else if MatchBegin(sql) then Begin
      else if MatchEnd(sql) then End
      else Plain
  }

  /** No statement matches two of the patterns. */
  lemma PatternsDisjoint(s: seq<Byte>)
    ensures !(MatchSelect(s) && MatchBegin(s)) && !(MatchSelect(s) && MatchEnd(s)) && !(MatchBegin(s) && MatchEnd(s))
  {
    if s != [] {
      var c := Lower(s[0]);
      assert MatchSelect(s) ==> c == "select"[0] as int;
      assert HasPrefix(s, "begin") ==> c == "begin"[0] as int;
      assert HasPrefix(s, "start transaction") ==> c == "start transaction"[0] as int;
      assert MatchEnd(s) ==> c == "commit"[0] as int || c == "rollback"[0] as int;
      if |s| > 1 {
        assert MatchSelect(s) ==> Lower(s[1]) == "select"[1] as int;
        assert HasPrefix(s, "start transaction") ==> Lower(s[1]) == "start transaction"[1] as int;
      }
    }
  }

  // ---- What the packets say ----

  /** The bytes are the word, each letter in either case. */
  predicate Spells(s: seq<Byte>, word: string)
    requires Lowercase(word)
  {
    |s| == |word|
    && forall i | 0 <= i < |s| ::
         s[i] == word[i] as int || ('a' <= word[i] <= 'z' && s[i] == word[i] as int - 0x20)
  }

  predicate Lowercase(word: string) {
    forall i | 0 <= i < |word| :: 'a' <= word[i] <= 'z' || word[i] == ' '
  }

  predicate BlankRange(s: seq<Byte>, from: nat, to: nat)
    requires from <= to <= |s|
  {
    forall i | from <= i < to :: s[i] == 0x20 || s[i] == 0x0d || s[i] == 0x0a
  }

  /** A query command (3, behind four bytes of header) whose text starts with the word, behind
      blanks and line ends. */
  ghost predicate OpensWith(packet: seq<Byte>, word: string)
    requires Lowercase(word)
  {
    |packet| > 5 && packet[4] == 3
    && exists at :: WordAt(packet, at, word)
  }

  predicate WordAt(packet: seq<Byte>, at: int, word: string)
    requires Lowercase(word)
  {
    5 <= at && at + |word| <= |packet| && BlankRange(packet, 5, at) && Spells(packet[at..at + |word|], word)
  }

  lemma {:induction false} TrimLeftDrops(s: seq<Byte>) returns (n: nat)
    ensures n <= |s| && TrimLeft(s) == s[n..] && BlankRange(s, 0, n) && (n < |s| ==> !Trimmed(s[n]))
  {
    n := 0;
    if s != [] && Trimmed(s[0]) {
      var k := TrimLeftDrops(s[1..]);
      n := k + 1;
      assert forall i | 1 <= i < n :: s[i] == s[1..][i - 1];
    }
  }

  lemma {:induction false} TrimRightDrops(s: seq<Byte>) returns (m: nat)
    ensures m <= |s| && TrimRight(s) == s[..m] && BlankRange(s, m, |s|)
    decreases |s|
  {
    m := |s|;
    if s != [] && Trimmed(s[m - 1]) {
      m := TrimRightDrops(s[..|s| - 1]);
      assert forall i | m <= i < |s| - 1 :: s[i] == s[..|s| - 1][i];
    }
  }

  /** Where the statement of a packet lies in it. */
  lemma StatementLies(packet: seq<Byte>) returns (from: nat, to: nat)
    requires IsQuery(packet)
    ensures 5 <= from <= to <= |packet| && Statement(packet) == packet[from..to]
    ensures BlankRange(packet, 5, from) && BlankRange(packet, to, |packet|)
    ensures from < |packet| ==> !Trimmed(packet[from])
  {
    var q := packet[5..];
    var n := TrimLeftDrops(q);
    var m := TrimRightDrops(q[n..]);
    from, to := 5 + n, 5 + n + m;
    assert q[n..] == packet[from..];
    assert q[n..][..m] == packet[from..to];
    assert forall i | 5 <= i < from :: packet[i] == q[i - 5];
    assert forall i | to <= i < |packet| :: packet[i] == q[n..][i - from];
  }

  lemma PrefixSpells(s: seq<Byte>, word: string)
    requires Lowercase(word)
    ensures HasPrefix(s, word) <==> |word| <= |s| && Spells(s[..|word|], word)
  {
  }

  /** A statement has the prefix if and only if its packet opens with the word. */
  lemma PrefixIff(packet: seq<Byte>, word: string)
    requires Lowercase(word) && word != "" && word[0] != ' ' && word[|word| - 1] != ' '
    ensures IsQuery(packet) && HasPrefix(Statement(packet), word) <==> OpensWith(packet, word)
  {
    if IsQuery(packet) {
      hide Statement, HasPrefix;
      var from, to := StatementLies(packet);
      var s := packet[from..to];
      PrefixSpells(s, word);
      if HasPrefix(s, word) {
        assert s[..|word|] == packet[from..from + |word|];
        assert WordAt(packet, from, word);
      }
      if OpensWith(packet, word) {
        var at :| WordAt(packet, at, word);
        var w := packet[at..at + |word|];
        assert packet[at] == w[0] && packet[at + |word| - 1] == w[|word| - 1];
        assert at == from;
        assert s[..|word|] == w;
      }
    }
  }

  /** The kind of a packet, read off its bytes: the command byte, then a keyword in any letter
      case behind blanks and line ends. */
  lemma KindIff(packet: seq<Byte>)
    ensures KindOf(packet) == Select <==> OpensWith(packet, "select")
    ensures KindOf(packet) == Begin <==> OpensWith(packet, "begin") || OpensWith(packet, "start transaction")
    ensures KindOf(packet) == End <==> OpensWith(packet, "commit") || OpensWith(packet, "rollback")
  {
    hide HasPrefix, Statement, OpensWith, IsQuery;
    PrefixIff(packet, "select");
    PrefixIff(packet, "begin");
    PrefixIff(packet, "start transaction");
    PrefixIff(packet, "commit");
    PrefixIff(packet, "rollback");
    if IsQuery(packet) { PatternsDisjoint(Statement(packet)); }
  }

  // ---- The reference: spans opened by begin and closed by commit or rollback ----

  /** The last transaction-control statement of a session so far was an opening one. */
  predicate LastControlOpens(packets: seq<seq<Byte>>) {
    packets != []
    && var k := KindOf(packets[|packets| - 1]);
       k == Begin || (k != End && LastControlOpens(packets[..|packets| - 1]))
  }

  /** Only a SELECT outside such a span goes to a replica. */
  function TargetOf(before: seq<seq<Byte>>, packet: seq<Byte>): Target {
    if KindOf(packet) == Select && !LastControlOpens(before) then Replica else Main
  }

  /** The same, spelled out: some earlier begin has no commit or rollback behind it. */
  lemma {:induction false} LastControlOpensIff(packets: seq<seq<Byte>>)
    ensures LastControlOpens(packets)
            <==> exists i :: 0 <= i < |packets| && KindOf(packets[i]) == Begin
                             && forall j | i < j < |packets| :: KindOf(packets[j]) != End
    decreases |packets|
  {
    hide KindOf;
    if packets != [] {
      var n := |packets| - 1;
      var front := packets[..n];
      LastControlOpensIff(front);
      if KindOf(packets[n]) != Begin && KindOf(packets[n]) != End {
        if LastControlOpens(front) {
          var i :| 0 <= i < |front| && KindOf(front[i]) == Begin
                   && forall j | i < j < |front| :: KindOf(front[j]) != End;
          assert KindOf(packets[i]) == Begin && forall j | i < j < |packets| :: KindOf(packets[j]) != End;
        }
        if i :| 0 <= i < |packets| && KindOf(packets[i]) == Begin
                && forall j | i < j < |packets| :: KindOf(packets[j]) != End {
          assert KindOf(front[i]) == Begin && forall j | i < j < |front| :: KindOf(front[j]) != End;
        }
      }
    }
  }

  class MysqlProxy {
    var inTrans: bool

    constructor ()
      ensures !inTrans
    {
      inTrans := false;
    }

    /** delegateSelect, up to the choice of the replica. */
    method DelegateSelect(buffer: seq<Byte>, ghost before: seq<seq<Byte>>) returns (target: Target)
      requires inTrans == LastControlOpens(before)
      modifies this
      ensures target == TargetOf(before, buffer)
      ensures inTrans == LastControlOpens(before + [buffer])
    {
      hide HasPrefix, Statement;
      assert (before + [buffer])[..|before|] == before;
      if |buffer| <= 5 || buffer[4] != COM_QUERY {
        return Main;
      }
      var sql := TrimRight(TrimLeft(buffer[5..]));
      assert sql == Statement(buffer) by { IsStatement(buffer); }
      PatternsDisjoint(sql);
      var matchSelect := MatchSelect(sql);
      if inTrans || !matchSelect {
        var matchTranBegin := MatchBegin(sql);
        if matchTranBegin {
          inTrans := true;
        }
        if inTrans {
          var matchTranEnd := MatchEnd(sql);
          if matchTranEnd {
            inTrans := false;
          }
        }
        return Main;
      }
      return Replica;
    }

    static lemma IsStatement(buffer: seq<Byte>)
      requires IsQuery(buffer)
      ensures Statement(buffer) == TrimRight(TrimLeft(buffer[5..]))
    {
    }

    /** A whole session: every command reaches its target, whatever came before. */
    method Session(packets: seq<seq<Byte>>) returns (targets: seq<Target>)
      requires !inTrans
      modifies this
      ensures |targets| == |packets|
      ensures forall i | 0 <= i < |packets| :: targets[i] == TargetOf(packets[..i], packets[i])
      ensures inTrans == LastControlOpens(packets)
    {
      targets := [];
      var i := 0;
      while i < |packets|
        invariant 0 <= i == |targets| <= |packets|
        invariant forall k | 0 <= k < i :: targets[k] == TargetOf(packets[..k], packets[k])
        invariant inTrans == LastControlOpens(packets[..i])
      {
        assert packets[..i] + [packets[i]] == packets[..i + 1];
        var t := DelegateSelect(packets[i], packets[..i]);
        targets := targets + [t];
        i := i + 1;
      }
      assert packets[..i] == packets;
    }
  }

  // ---- Weighted choice ----

  function Sum(ws: seq<int>): int {
    if ws == [] then 0 else Sum(ws[..|ws| - 1]) + ws[|ws| - 1]
  }

  ghost predicate AllPositive(ws: seq<int>) {
    forall i | 0 <= i < |ws| :: ws[i] > 0
  }

  lemma {:induction false} SumMonotone(ws: seq<int>, i: nat, j: nat)
    requires AllPositive(ws) && i <= j <= |ws|
    ensures 0 <= Sum(ws[..i]) <= Sum(ws[..j])
    decreases j
  {
    if i < j {
      SumMonotone(ws, i, j - 1);
      assert ws[..j][..j - 1] == ws[..j - 1];
    } else if j > 0 {
      SumMonotone(ws, j - 1, j - 1);
      assert ws[..j][..j - 1] == ws[..j - 1];
    }
  }

  /** chooseByWeight for the random number `r`: the fallback to the first replica is reached
      only by a number that is not below the total. */
  method ChooseByWeight(weights: seq<int>, r: nat) returns (index: nat, fallback: bool)
    requires weights != []
    ensures index < |weights|
    ensures AllPositive(weights) ==> (fallback <==> r >= Sum(weights))
    ensures !fallback ==> r < Sum(weights[..index + 1]) && forall k | 0 <= k <= index :: Sum(weights[..k]) <= r
    ensures fallback ==> index == 0
  {
    var currentWeight := 0;
    var i := 0;
    while i < |weights|
      invariant 0 <= i <= |weights|
      invariant currentWeight == Sum(weights[..i])
      invariant forall k | 0 <= k <= i :: Sum(weights[..k]) <= r
    {
      assert weights[..i + 1][..i] == weights[..i];
      currentWeight := currentWeight + weights[i];
      if r < currentWeight {
        if AllPositive(weights) { Below(weights, i + 1); }
        return i, false;
      }
      i := i + 1;
    }
    assert weights[..i] == weights;
    index, fallback := 0, true;
  }

  lemma Below(weights: seq<int>, i: nat)
    requires AllPositive(weights) && i <= |weights|
    ensures Sum(weights[..i]) <= Sum(weights)
  {
    SumMonotone(weights, i, |weights|);
    assert weights[..|weights|] == weights;
  }

  /** The replica that owns `r`: the windows between consecutive partial sums tile [0, total). */
  ghost predicate Owns(weights: seq<int>, i: nat, r: int)
    requires i < |weights|
  {
    Sum(weights[..i]) <= r < Sum(weights[..i + 1])
  }

  /** What ChooseByWeight promises determines its answer. */
  lemma OneOwner(weights: seq<int>, i: nat, j: nat, r: int)
    requires AllPositive(weights) && i < |weights| && j < |weights| && Owns(weights, i, r) && Owns(weights, j, r)
    ensures i == j
  {
    if i < j {
      SumMonotone(weights, i + 1, j);
    } else if j < i {
      SumMonotone(weights, j + 1, i);
    }
  }

  ghost function OwnedBy(weights: seq<int>, i: nat): (s: set<int>)
    requires AllPositive(weights) && i < |weights|
  {
    set r | 0 <= r < Sum(weights) && Owns(weights, i, r)
  }

  /** Over all random numbers below the total, replica i is chosen exactly Weight_i times. */
  lemma ChosenExactlyByWeight(weights: seq<int>, i: nat)
    requires AllPositive(weights) && i < |weights|
    ensures |OwnedBy(weights, i)| == weights[i]
  {
    SumMonotone(weights, i, i);
    SumMonotone(weights, i + 1, |weights|);
    assert weights[..|weights|] == weights;
    assert weights[..i + 1][..i] == weights[..i];
    assert OwnedBy(weights, i) == Range(Sum(weights[..i]), Sum(weights[..i + 1]));
  }

  function Range(a: int, b: int): (s: set<int>)
    ensures forall r: int :: r in s <==> a <= r < b
    ensures a <= b ==> |s| == b - a
    decreases b - a
  {
    if a >= b then {} else Range(a, b - 1) + {b - 1}
  }

  // ---- Configuration ----

  datatype Secondary = Secondary(name: seq<Byte>, weight: int, connects: bool, maxIdle: int, maxOpen: int)

  datatype WeightedDB = WeightedDB(name: seq<Byte>, minConns: int, maxConns: int, weight: int)

  predicate Usable(s: Secondary) {
    s.weight > 0 && s.connects
  }

  function Weighted(s: Secondary): WeightedDB {
    WeightedDB(s.name, if s.maxIdle > 0 then s.maxIdle else 1, if s.maxOpen > 0 then s.maxOpen else 10, s.weight)
  }

  function AllWeighted(ss: seq<Secondary>): seq<WeightedDB> {
    if ss == [] then []
    else AllWeighted(ss[..|ss| - 1]) + (if Usable(ss[|ss| - 1]) then [Weighted(ss[|ss| - 1])] else [])
  }

  /** One replica more counts exactly if its weight is positive and it connects; then it comes
      last, with a pool of one to ten connections unless the settings say otherwise. */
  lemma ReplicaCounts(ss: seq<Secondary>, s: Secondary)
    ensures s.weight <= 0 || !s.connects ==> AllWeighted(ss + [s]) == AllWeighted(ss)
    ensures s.weight > 0 && s.connects ==>
              && |AllWeighted(ss + [s])| == |AllWeighted(ss)| + 1
              && AllWeighted(ss) <= AllWeighted(ss + [s])
              && var db := AllWeighted(ss + [s])[|AllWeighted(ss)|];
                 db.name == s.name && db.weight == s.weight
                 && db.minConns == (if s.maxIdle <= 0 then 1 else s.maxIdle)
                 && db.maxConns == (if s.maxOpen <= 0 then 10 else s.maxOpen)
  {
    assert (ss + [s])[..|ss|] == ss;
  }

  function Weights(dbs: seq<WeightedDB>): (ws: seq<int>)
    ensures |ws| == |dbs| && forall i | 0 <= i < |ws| :: ws[i] == dbs[i].weight
  {
    seq(|dbs|, i requires 0 <= i < |dbs| => dbs[i].weight)
  }

  /** initMysqlDB: the total is what the chooser needs. */
  method InitMysqlDB(secondaries: seq<Secondary>) returns (dbs: seq<WeightedDB>, total: int)
    ensures dbs == AllWeighted(secondaries)
    ensures AllPositive(Weights(dbs)) && total == Sum(Weights(dbs))
  {
    dbs, total := [], 0;
    var i := 0;
    while i < |secondaries|
      invariant 0 <= i <= |secondaries|
      invariant dbs == AllWeighted(secondaries[..i])
      invariant AllPositive(Weights(dbs)) && total == Sum(Weights(dbs))
    {
      var secondary := secondaries[i];
      assert secondaries[..i + 1][..i] == secondaries[..i];
      i := i + 1;
      if secondary.weight <= 0 { continue; }
      if !secondary.connects { continue; }
      var min, max := 1, 10;
      if secondary.maxIdle > 0 { min := secondary.maxIdle; }
      if secondary.maxOpen > 0 { max := secondary.maxOpen; }
      var db := WeightedDB(secondary.name, min, max, secondary.weight);
      assert Weights(dbs + [db])[..|dbs|] == Weights(dbs);
      dbs := dbs + [db];
      total := total + secondary.weight;
    }
    assert secondaries[..i] == secondaries;
  }
}
