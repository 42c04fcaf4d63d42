/** What the pool's loops can count on while others work: how far a reaper goes, and exactly
    when Open and Close can be left waiting for ever. */
module PoolProgress {
  import opened Bytes
  import opened Pool
  import opened PoolProtocol

  // ---- Sums over the reapers ----

  function Total(rs: seq<Reaper>, f: Reaper -> nat): nat {
    if rs == [] then 0 else Total(rs[..|rs| - 1], f) + f(rs[|rs| - 1])
  }

  lemma {:induction false} TotalChanges(rs: seq<Reaper>, k: nat, x: Reaper, f: Reaper -> nat)
    requires k < |rs|
    ensures Total(rs[k := x], f) + f(rs[k]) == Total(rs, f) + f(x)
    decreases |rs|
  {
    var n := |rs| - 1;
    if k == n {
      assert rs[k := x][..n] == rs[..n];
    } else {
      assert rs[k := x][..n] == rs[..n][k := x] && rs[k := x][n] == rs[n];
      TotalChanges(rs[..n], k, x, f);
    }
  }

  lemma {:induction false} PartOfTotal(rs: seq<Reaper>, k: nat, f: Reaper -> nat)
    requires k < |rs|
    ensures f(rs[k]) <= Total(rs, f)
    decreases |rs|
  {
    if k < |rs| - 1 {
      PartOfTotal(rs[..|rs| - 1], k, f);
    }
  }

  lemma {:induction false} SomePart(rs: seq<Reaper>, f: Reaper -> nat) returns (k: nat)
    requires Total(rs, f) > 0
    ensures k < |rs| && f(rs[k]) > 0
    decreases |rs|
  {
    if f(rs[|rs| - 1]) > 0 {
      k := |rs| - 1;
    } else {
      k := SomePart(rs[..|rs| - 1], f);
    }
  }

  /** The receives that a reaper in the middle of a round still makes. */
  function Owed(r: Reaper): nat {
    if !r.Reaping? then 0
    else var made := r.i + Hand(r); if r.n > made then r.n - made else 0
  }

  function Hand(r: Reaper): nat {
    if r.Reaping? && r.hand.Some? then 1 else 0
  }

  /** The steps before its next receive, and so on to its last. */
  function Work(r: Reaper): nat {
    2 * Owed(r) + Hand(r)
  }

  function AllOwed(s: State): nat {
    Total(s.reapers, Owed)
  }

  function AllWork(s: State): nat {
    Total(s.reapers, Work)
  }

  /** A reaper's step: it owes one receive less after one, and the same after any other but a
      wake-up. */
  lemma ReaperStep(s: State, e: Event)
    requires Enabled(s, e) && IsReaperStep(e) && !e.ReapWake?
    ensures AllOwed(Apply(s, e)) == AllOwed(s) - if e.ReapReceive? then 1 else 0
    ensures e.ReapReceive? || e.ReapShut? ==> AllWork(Apply(s, e)) < AllWork(s)
  {
    var x := Apply(s, e).reapers[e.r];
    TotalChanges(s.reapers, e.r, x, Owed);
    TotalChanges(s.reapers, e.r, x, Work);
  }

  /** A reaper that owes a receive can take its next step. */
  lemma OwingReaperMoves(s: State) returns (e: Event)
    requires AllOwed(s) > 0 && s.idle != []
    ensures (e.ReapReceive? || e.ReapShut?) && Enabled(s, e)
  {
    var r := SomePart(s.reapers, Owed);
    e := if s.reapers[r].hand.Some? then ReapShut(r) else ReapReceive(r);
  }

  lemma NobodyOwes(s: State, r: nat)
    requires AllOwed(s) == 0
    ensures !Enabled(s, ReapReceive(r))
  {
    if r < |s.reapers| { PartOfTotal(s.reapers, r, Owed); }
  }

  /** A reaper never sets out to receive more than the channel can hold above the minimum. */
  ghost predicate Modest(s: State) {
    forall r | 0 <= r < |s.reapers| :: s.reapers[r].Reaping? ==> s.reapers[r].n <= s.maxConns - s.minConns
  }

  lemma StepKeepsModest(s: State, e: Event)
    requires Inv(s) && Modest(s) && Enabled(s, e)
    ensures Modest(Apply(s, e))
  {
    hide Places;
  }

  lemma {:induction false} ReachedModest(s: State, es: seq<Event>)
    requires Inv(s) && Modest(s) && RunFrom(s, es).Some?
    ensures Inv(RunFrom(s, es).value) && Modest(RunFrom(s, es).value)
    decreases |es|
  {
    hide Inv, Modest, Apply, Enabled;
    if es != [] {
      StepKeepsInv(s, es[0]);
      StepKeepsModest(s, es[0]);
      ReachedModest(Apply(s, es[0]), es[1..]);
    }
  }

  lemma OwedMeansRoom(s: State)
    requires Modest(s) && AllOwed(s) > 0
    ensures s.maxConns > s.minConns
  {
    var r := SomePart(s.reapers, Owed);
  }

  // ---- A reaper's round ----

  /** Connections that come to the idle ones, and those that others than reaper `r` take. */
  function AddedBy(s: State, e: Event): nat {
    if e.OpenSend? || (e.Put? && !s.closed && |s.idle| < s.maxConns) then 1 else 0
  }

  function TakenBy(e: Event, r: nat): nat {
    if e.GetIdle? || e.CloseReceive? || (e.ReapReceive? && e.r != r) then 1 else 0
  }

  function Added(s: State, es: seq<Event>): nat
    requires RunFrom(s, es).Some?
    decreases |es|
  {
    if es == [] then 0 else AddedBy(s, es[0]) + Added(Apply(s, es[0]), es[1..])
  }

  function Taken(es: seq<Event>, r: nat): nat {
    if es == [] then 0 else TakenBy(es[0], r) + Taken(es[1..], r)
  }

  /** Reaper `r` is in the round that it started with `n`, and has not received too often. */
  predicate InRound(s: State, r: nat, n: int) {
    r < |s.reapers| && s.reapers[r].Reaping? && s.reapers[r].n == n
    && Received(s, r) <= if n > 0 then n else 0
  }

  function Received(s: State, r: nat): nat
    requires r < |s.reapers|
  {
    if s.reapers[r].Reaping? then s.reapers[r].i + Hand(s.reapers[r]) else 0
  }

  lemma RoundStep(s: State, e: Event, r: nat, n: int)
    requires Enabled(s, e) && InRound(s, r, n) && e != ReapDone(r)
    ensures var t := Apply(s, e);
            && InRound(t, r, n) && t.minConns == s.minConns
            && |t.idle| + Received(t, r) + TakenBy(e, r) == |s.idle| + Received(s, r) + AddedBy(s, e)
  {
  }

  /** At every moment of a round the idle connections are those at its start, less the ones
      the reaper has received, plus what came, less what others took. */
  lemma {:induction false} RoundBalance(s: State, es: seq<Event>, t: State, r: nat, n: int)
    requires InRound(s, r, n) && RunFrom(s, es) == Some(t) && forall i | 0 <= i < |es| :: es[i] != ReapDone(r)
    ensures InRound(t, r, n) && t.minConns == s.minConns
    ensures |t.idle| + Received(t, r) + Taken(es, r) == |s.idle| + Received(s, r) + Added(s, es)
    decreases |es|
  {
    hide InRound, Enabled, Apply, AddedBy, TakenBy, Received;
    if es != [] {
      var u := Apply(s, es[0]);
      RoundStep(s, es[0], r, n);
      assert forall i | 0 <= i < |es[1..]| :: es[1..][i] == es[i + 1];
      RoundBalance(u, es[1..], t, r, n);
    }
  }

  /** Over every round, whatever happens in between: a reaper that wakes up to at least the
      minimum leaves it below the minimum if and only if others took more than came back. */
  lemma RoundUndershootsIff(s: State, r: nat, es: seq<Event>, t: State)
    requires Enabled(s, ReapWake(r)) && RunFrom(Apply(s, ReapWake(r)), es) == Some(t)
    requires (forall i | 0 <= i < |es| :: es[i] != ReapDone(r)) && Enabled(t, ReapDone(r))
    ensures |t.idle| + Taken(es, r)
         == (if |s.idle| >= s.minConns then s.minConns else |s.idle|) + Added(Apply(s, ReapWake(r)), es)
    ensures |s.idle| >= s.minConns ==>
              (|t.idle| < t.minConns <==> Taken(es, r) > Added(Apply(s, ReapWake(r)), es))
  {
    var u := Apply(s, ReapWake(r));
    RoundBalance(u, es, t, r, |s.idle| - s.minConns);
  }

  // ---- Opening ----

  /** The opener holds a connection for a full channel that nobody will receive from. */
  predicate OpenStuck(s: State) {
    s.opener.Opening? && s.opener.hand.Some? && |s.idle| == s.maxConns && AllOwed(s) == 0
  }

  /** Stuck for good: no run brings the opener a step further or frees the mutex. */
  lemma {:induction false} StuckOpenWaitsForEver(s: State, es: seq<Event>, t: State)
    requires Inv(s) && OpenStuck(s) && RunFrom(s, es) == Some(t)
    ensures t.opener == s.opener && OpenStuck(t) && !MutexFree(t)
    decreases |es|
  {
    hide Inv, AllOwed;
    if es != [] {
      StepKeepsInv(s, es[0]);
      StuckOpenStep(s, es[0]);
      StuckOpenWaitsForEver(Apply(s, es[0]), es[1..], t);
    }
  }

  lemma StuckOpenStep(s: State, e: Event)
    requires Inv(s) && OpenStuck(s) && Enabled(s, e)
    ensures var t := Apply(s, e); t.opener == s.opener && OpenStuck(t)
  {
    hide Places, AllOwed;
    if e.ReapReceive? { NobodyOwes(s, e.r); }
    assert IsReaperStep(e) && !e.ReapWake? && !e.ReapReceive?;
    ReaperStep(s, e);
  }

  /** The steps that do not end the current Open. */
  predicate StaysOpening(e: Event) {
    !e.OpenDone? && e != OpenConnect(false)
  }

  /** A schedule that leaves this Open waiting for ever. */
  predicate OpenSticks(s: State, es: seq<Event>) {
    RunFrom(s, es).Some? && OpenStuck(RunFrom(s, es).value) && forall i | 0 <= i < |es| :: StaysOpening(es[i])
  }

  /** Idle connections less owed receives less sends: what no step of an Open changes. */
  function OpenBalance(s: State): int
    requires s.opener.Opening?
  {
    |s.idle| - AllOwed(s) - s.opener.i
  }

  lemma OpenBalanceStep(s: State, e: Event)
    requires Inv(s) && s.opener.Opening? && Enabled(s, e) && StaysOpening(e)
    ensures var t := Apply(s, e);
            t.opener.Opening? && OpenBalance(t) == OpenBalance(s)
            && t.minConns == s.minConns && t.maxConns == s.maxConns
  {
    hide Places;
    if IsReaperStep(e) { ReaperStep(s, e); }
  }

  lemma {:induction false} OpenBalanceRun(s: State, es: seq<Event>, t: State)
    requires Inv(s) && s.opener.Opening? && RunFrom(s, es) == Some(t)
    requires forall i | 0 <= i < |es| :: StaysOpening(es[i])
    ensures Inv(t) && t.opener.Opening? && OpenBalance(t) == OpenBalance(s)
    ensures t.minConns == s.minConns && t.maxConns == s.maxConns
    decreases |es|
  {
    hide Inv, OpenBalance, Apply, Enabled, StaysOpening;
    if es != [] {
      StepKeepsInv(s, es[0]);
      OpenBalanceStep(s, es[0]);
      OpenBalanceRun(Apply(s, es[0]), es[1..], t);
    }
  }

  /** The step that leads to a full channel nobody empties. */
  lemma OpenStickyStep(s: State) returns (e: Event)
    requires Inv(s) && Modest(s) && s.opener.Opening? && OpenBalance(s) + s.minConns > s.maxConns && !OpenStuck(s)
    ensures Enabled(s, e) && StaysOpening(e) && Apply(s, e).opener.Opening?
    ensures Apply(s, e).opener.i <= s.minConns
    ensures var t := Apply(s, e);
            || t.opener.i > s.opener.i
            || (t.opener.i == s.opener.i && AllWork(t) < AllWork(s))
            || (t.opener.i == s.opener.i && AllWork(t) == AllWork(s) && s.opener.hand.None? && t.opener.hand.Some?)
  {
    hide Places, AllOwed, AllWork;
    if s.opener.hand.None? {
      e := OpenConnect(true);
      SameReapers(s, Apply(s, e));
    } else if |s.idle| < s.maxConns {
      e := OpenSend;
    } else {
      OwedMeansRoom(s);
      e := OwingReaperMoves(s);
      ReaperStep(s, e);
    }
  }

  lemma SameReapers(s: State, t: State)
    requires s.reapers == t.reapers
    ensures AllOwed(s) == AllOwed(t) && AllWork(s) == AllWork(t)
  {
  }

  lemma {:induction false} OpenCanStick(s: State) returns (es: seq<Event>)
    requires Inv(s) && Modest(s) && s.opener.Opening? && OpenBalance(s) + s.minConns > s.maxConns
    requires s.opener.i <= s.minConns
    ensures OpenSticks(s, es)
    decreases s.minConns - s.opener.i, AllWork(s), s.opener.hand.None?
  {
    hide Inv, Modest, Apply, Enabled, StaysOpening, AllOwed, AllWork, OpenBalance, OpenStuck;
    if OpenStuck(s) {
      es := [];
    } else {
      var e := OpenStickyStep(s);
      StepKeepsInv(s, e);
      StepKeepsModest(s, e);
      OpenBalanceStep(s, e);
      var more := OpenCanStick(Apply(s, e));
      es := [e] + more;
      RunCons(s, e, more);
    }
  }

  /** From the moment Open has the mutex, some schedule leaves it waiting for ever, with the
      mutex held, if and only if the idle connections and those it is to add do not fit in the
      channel and the reapers in the middle of a round will not make up for it. */
  lemma OpenWaitsIff(minConns: nat, maxConns: nat, before: seq<Event>, s: State)
    requires RunFrom(Init(minConns, maxConns), before) == Some(s) && s.opener == Opening(0, None, |s.idle|)
    ensures (exists es: seq<Event> :: OpenSticks(s, es)) <==> |s.idle| + s.minConns > s.maxConns + AllOwed(s)
  {
    hide Inv, Modest, OpenSticks, AllOwed;
    InitInv(minConns, maxConns);
    assert Modest(Init(minConns, maxConns)) by { NoReapers(minConns, maxConns); }
    ReachedModest(Init(minConns, maxConns), before);
    if |s.idle| + s.minConns > s.maxConns + AllOwed(s) {
      var es := OpenCanStick(s);
    }
    forall es: seq<Event> | OpenSticks(s, es)
      ensures |s.idle| + s.minConns > s.maxConns + AllOwed(s)
    {
      StickingOpenOverflows(s, es);
    }
  }

  lemma NoReapers(minConns: nat, maxConns: nat)
    ensures Modest(Init(minConns, maxConns)) && AllOwed(Init(minConns, maxConns)) == 0
  {
  }

  lemma StickingOpenOverflows(s: State, es: seq<Event>)
    requires Inv(s) && s.opener == Opening(0, None, |s.idle|) && OpenSticks(s, es)
    ensures |s.idle| + s.minConns > s.maxConns + AllOwed(s)
  {
    hide Places, AllOwed;
    OpenBalanceRun(s, es, RunFrom(s, es).value);
  }

  /** The first Open of a pool can wait for ever if and only if its minimum exceeds its maximum. */
  lemma FirstOpenWaitsIff(minConns: nat, maxConns: nat)
    ensures Enabled(Init(minConns, maxConns), OpenLock)
    ensures (exists es: seq<Event> :: OpenSticks(Apply(Init(minConns, maxConns), OpenLock), es))
            <==> minConns > maxConns
  {
    hide OpenSticks, AllOwed;
    var s0 := Init(minConns, maxConns);
    RunCons(s0, OpenLock, []);
    NoReapers(minConns, maxConns);
    SameReapers(s0, Apply(s0, OpenLock));
    OpenWaitsIff(minConns, maxConns, [OpenLock] + [], Apply(s0, OpenLock));
  }

  /** An opener that is not stuck but finds the channel full need only wait: a reaper owes a
      receive and can take its next step. */
  lemma FullChannelIsEmptied(s: State) returns (e: Event)
    requires Inv(s) && Modest(s) && s.opener.Opening? && s.opener.hand.Some? && !OpenStuck(s)
    ensures Enabled(s, e) && (e.OpenSend? || ((e.ReapReceive? || e.ReapShut?) && AllWork(Apply(s, e)) < AllWork(s)))
  {
    hide Places, AllOwed, AllWork;
    if |s.idle| < s.maxConns {
      e := OpenSend;
    } else {
      OwedMeansRoom(s);
      e := OwingReaperMoves(s);
      ReaperStep(s, e);
    }
  }

  // ---- Closing ----

  /** The closer has passed its loop test and finds the channel drained. */
  predicate CloseStuck(s: State) {
    s.closer.Closing? && s.closer.due && s.closer.hand.None? && s.idle == []
  }

  predicate CloseSticks(s: State, es: seq<Event>) {
    RunFrom(s, es).Some? && CloseStuck(RunFrom(s, es).value)
  }

  /** How many receives reapers must still owe, for `idle` connections and a closer that has
      closed `i`: the closer goes on as long as its test passes, and they take all the rest. */
  function Needed(i: nat, idle: nat): int {
    idle - (idle - i - 1) / 2
  }

  predicate Drainable(i: nat, idle: nat, owed: nat) {
    idle > i && owed >= Needed(i, idle)
  }

  /** The states of a Close from which it can still be left waiting for ever. */
  predicate CloseCanStick(s: State) {
    s.closer.Closing?
    && if s.closer.hand.Some? then Drainable(s.closer.i + 1, |s.idle|, AllOwed(s))
       else if s.closer.due then
         AllOwed(s) >= |s.idle| || (|s.idle| > 0 && Drainable(s.closer.i + 1, |s.idle| - 1, AllOwed(s)))
       else Drainable(s.closer.i, |s.idle|, AllOwed(s))
  }

  /** No step of a Close, or of anyone else meanwhile, makes it possible. */
  lemma CloseStepBackwards(s: State, e: Event)
    requires Inv(s) && s.closed && Enabled(s, e) && CloseCanStick(Apply(s, e))
    ensures CloseCanStick(s)
  {
    hide Places, AllOwed;
    if IsReaperStep(e) {
      ReaperStep(s, e);
    } else {
      SameReapers(s, Apply(s, e));
    }
  }

  lemma {:induction false} StickingCloseCould(s: State, es: seq<Event>)
    requires Inv(s) && s.closed && CloseSticks(s, es)
    ensures CloseCanStick(s)
    decreases |es|
  {
    hide Inv, CloseCanStick, CloseStuck, Apply, Enabled;
    if es == [] {
      StuckCould(s);
    } else {
      StepKeepsInv(s, es[0]);
      StaysClosed(s, es[0]);
      StickingCloseCould(Apply(s, es[0]), es[1..]);
      CloseStepBackwards(s, es[0]);
    }
  }

  lemma StuckCould(s: State)
    requires CloseStuck(s)
    ensures CloseCanStick(s)
  {
  }

  lemma StaysClosed(s: State, e: Event)
    requires s.closed && Enabled(s, e)
    ensures Apply(s, e).closed
  {
  }

  /** The steps that a Close still takes at most. */
  function CloserDistance(s: State): nat {
    if s.closer.NotClosing? then 0
    else 3 * |s.idle| + if s.closer.hand.Some? then 3 else if s.closer.due then 1 else 2
  }

  lemma CloseStickyStep(s: State) returns (e: Event)
    requires Inv(s) && CloseCanStick(s) && !CloseStuck(s)
    ensures Enabled(s, e) && CloseCanStick(Apply(s, e))
    ensures var t := Apply(s, e);
            CloserDistance(t) < CloserDistance(s)
            || (CloserDistance(t) == CloserDistance(s) && AllWork(t) < AllWork(s))
  {
    hide Places, AllOwed, AllWork;
    if s.closer.hand.Some? {
      e := CloseShut;
      SameReapers(s, Apply(s, e));
    } else if !s.closer.due {
      e := CloseCheck;
      SameReapers(s, Apply(s, e));
    } else if AllOwed(s) >= |s.idle| {
      e := OwingReaperMoves(s);
      ReaperStep(s, e);
    } else {
      e := CloseReceive;
      SameReapers(s, Apply(s, e));
    }
  }

  lemma {:induction false} CloseCanBeStuck(s: State) returns (es: seq<Event>)
    requires Inv(s) && CloseCanStick(s)
    ensures CloseSticks(s, es)
    decreases CloserDistance(s), AllWork(s)
  {
    hide Inv, CloseCanStick, CloseStuck, Apply, Enabled, AllWork, CloserDistance;
    if CloseStuck(s) {
      es := [];
    } else {
      var e := CloseStickyStep(s);
      StepKeepsInv(s, e);
      var more := CloseCanBeStuck(Apply(s, e));
      es := [e] + more;
      RunCons(s, e, more);
    }
  }

  /** From the moment Close has the mutex, some schedule leaves it waiting for ever if and only
      if connections are idle and the reapers in the middle of a round still owe more receives
      than half of their number. */
  lemma CloseWaitsIff(minConns: nat, maxConns: nat, before: seq<Event>, s: State)
    requires RunFrom(Init(minConns, maxConns), before) == Some(s) && Enabled(s, CloseLock)
    ensures (exists es: seq<Event> :: CloseSticks(Apply(s, CloseLock), es))
            <==> |s.idle| > 0 && AllOwed(s) >= |s.idle| / 2 + 1
  {
    hide Places, CloseSticks, AllOwed;
    InitInv(minConns, maxConns);
    RunKeepsInv(Init(minConns, maxConns), before);
    var locked := Apply(s, CloseLock);
    StepKeepsInv(s, CloseLock);
    SameReapers(s, locked);
    if CloseCanStick(locked) {
      var es := CloseCanBeStuck(locked);
    }
    forall es: seq<Event> | CloseSticks(locked, es)
      ensures CloseCanStick(locked)
    {
      StickingCloseCould(locked, es);
    }
  }

  predicate IsCloserStep(e: Event) {
    e.CloseCheck? || e.CloseReceive? || e.CloseShut?
  }

  /** In every other case Close returns: it has a step to take unless it is stuck, each of its
      steps brings it nearer to its end, and no step of others sets it back. */
  lemma CloseComesNearer(s: State, e: Event)
    requires Inv(s) && s.closer.Closing? && Enabled(s, e)
    ensures if IsCloserStep(e) then CloserDistance(Apply(s, e)) < CloserDistance(s)
            else CloserDistance(Apply(s, e)) <= CloserDistance(s)
    ensures CloseStuck(s) || Enabled(s, CloseCheck) || Enabled(s, CloseReceive) || Enabled(s, CloseShut)
  {
    hide Places;
  }

  lemma {:induction false} RunAppend(s: State, a: seq<Event>, b: seq<Event>)
    requires RunFrom(s, a).Some?
    ensures RunFrom(s, a + b) == RunFrom(RunFrom(s, a).value, b)
    decreases |a|
  {
    hide Apply, Enabled;
    if a == [] {
      EmptyLeft(b);
    } else {
      assert (a + b)[1..] == a[1..] + b;
      RunAppend(Apply(s, a[0]), a[1..], b);
    }
  }

  /** One idle connection, no minimum: the reaper wakes up, Close starts and passes its loop
      test, and then the reaper takes the connection. */
  lemma ReapedUnderClose(s: State, r: nat)
    requires MutexFree(s) && !s.closed && |s.idle| == 1 && s.minConns == 0
    requires r < |s.reapers| && s.reapers[r].Sleeping?
    ensures CloseSticks(s, [ReapWake(r)] + ([CloseLock] + ([CloseCheck] + ([ReapReceive(r)] + []))))
  {
    var s1 := Apply(s, ReapWake(r));
    var s2 := Apply(s1, CloseLock);
    var s3 := Apply(s2, CloseCheck);
    RunCons(s, ReapWake(r), [CloseLock] + ([CloseCheck] + ([ReapReceive(r)] + [])));
    RunCons(s1, CloseLock, [CloseCheck] + ([ReapReceive(r)] + []));
    RunCons(s2, CloseCheck, [ReapReceive(r)] + []);
    RunCons(s3, ReapReceive(r), []);
  }

  /** A pool that has been opened and has lent one connection and got it back. */
  lemma OnceUsed()
    ensures RunFrom(Init(0, 1), [OpenLock] + ([OpenDone] + ([GetFresh] + ([Put(0)] + []))))
         == Some(State(0, 1, [0], multiset{}, multiset{}, 1, false, NotOpening, NotClosing, [Sleeping]))
  {
    var s0 := Init(0, 1);
    RunCons(s0, OpenLock, [OpenDone] + ([GetFresh] + ([Put(0)] + [])));
    var s1 := Apply(s0, OpenLock);
    RunCons(s1, OpenDone, [GetFresh] + ([Put(0)] + []));
    var s2 := Apply(s1, OpenDone);
    RunCons(s2, GetFresh, [Put(0)] + []);
    var s3 := Apply(s2, GetFresh);
    RunCons(s3, Put(0), []);
    var s4 := Apply(s3, Put(0));
    assert s4.reapers == [Sleeping] && s4.idle == [0] && s4.lent == multiset{} && s4.shut == multiset{};
    assert RunFrom(s4, []) == Some(s4);
  }

  /** The stuck state can be reached from a new pool, in eight steps. */
  lemma CloseCanWaitForEver() returns (es: seq<Event>)
    ensures CloseSticks(Init(0, 1), es) && |es| == 8
  {
    hide CloseStuck, Apply, Enabled;
    OnceUsed();
    var s := State(0, 1, [0], multiset{}, multiset{}, 1, false, NotOpening, NotClosing, [Sleeping]);
    ReapedUnderClose(s, 0);
    var use := [OpenLock] + ([OpenDone] + ([GetFresh] + ([Put(0)] + [])));
    var close := [ReapWake(0)] + ([CloseLock] + ([CloseCheck] + ([ReapReceive(0)] + [])));
    RunAppend(Init(0, 1), use, close);
    es := use + close;
  }
}
