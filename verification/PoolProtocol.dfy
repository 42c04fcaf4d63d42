/** The pool under interleaving: Open and Close hold the mutex over several steps, Get and Put
    for one, and reapers receive from the channel without it. */
module PoolProtocol {
  import opened Bytes
  import opened Pool

  datatype Opener = NotOpening | Opening(i: nat, hand: Option<Conn>, room: nat)

  /** `due`: the loop test has passed and a receive must follow. */
  datatype Closer = NotClosing | Closing(i: nat, due: bool, hand: Option<Conn>)

  datatype Reaper = Sleeping | Reaping(n: int, i: nat, hand: Option<Conn>) | Gone

  datatype State = State(
    minConns: nat, maxConns: nat, idle: seq<Conn>, lent: multiset<Conn>, shut: multiset<Conn>, total: nat,
    closed: bool, opener: Opener, closer: Closer, reapers: seq<Reaper>)

  function Init(minConns: nat, maxConns: nat): State {
    State(minConns, maxConns, [], multiset{}, multiset{}, 0, false, NotOpening, NotClosing, [])
  }

  datatype Event =
    | OpenLock | OpenConnect(ok: bool) | OpenSend | OpenDone
    | GetIdle | GetFresh | Put(c: Conn)
    | CloseLock | CloseCheck | CloseReceive | CloseShut
    | ReapWake(r: nat) | ReapReceive(r: nat) | ReapShut(r: nat) | ReapDone(r: nat) | ReapExit(r: nat)

  predicate MutexFree(s: State) {
    s.opener.NotOpening? && s.closer.NotClosing?
  }

  predicate Enabled(s: State, e: Event) {
    match e
    case OpenLock => MutexFree(s) && !s.closed
    case OpenConnect(_) => s.opener.Opening? && s.opener.hand.None? && s.opener.i < s.minConns
    case OpenSend => s.opener.Opening? && s.opener.hand.Some? && |s.idle| < s.maxConns
    case OpenDone => s.opener.Opening? && s.opener.hand.None? && s.opener.i >= s.minConns
    case GetIdle => MutexFree(s) && !s.closed && s.idle != []
    case GetFresh => MutexFree(s) && !s.closed && s.idle == []
    case Put(c) => MutexFree(s) && c in s.lent
    case CloseLock => MutexFree(s) && !s.closed
    case CloseCheck => s.closer.Closing? && !s.closer.due && s.closer.hand.None?
    case CloseReceive => s.closer.Closing? && s.closer.due && s.closer.hand.None? && s.idle != []
    case CloseShut => s.closer.Closing? && s.closer.hand.Some?
    case ReapWake(r) => r < |s.reapers| && s.reapers[r].Sleeping? && MutexFree(s)
    case ReapReceive(r) => r < |s.reapers| && s.reapers[r].Reaping? && s.reapers[r].hand.None?
                           && s.reapers[r].i < s.reapers[r].n && s.idle != []
    case ReapShut(r) => r < |s.reapers| && s.reapers[r].Reaping? && s.reapers[r].hand.Some?
    case ReapDone(r) => r < |s.reapers| && s.reapers[r].Reaping? && s.reapers[r].hand.None?
                        && s.reapers[r].i >= s.reapers[r].n
    case ReapExit(r) => r < |s.reapers| && s.reapers[r].Sleeping? && s.closed
  }

  function Apply(s: State, e: Event): State
    requires Enabled(s, e)
  {
    match e
    case OpenLock => s.(opener := Opening(0, None, |s.idle|))
    case OpenConnect(ok) =>
      if ok then s.(opener := s.opener.(hand := Some(s.total)), total := s.total + 1)
      else s.(opener := NotOpening)
    case OpenSend =>
      s.(idle := s.idle + [s.opener.hand.value], opener := s.opener.(i := s.opener.i + 1, hand := None))
    case OpenDone => s.(opener := NotOpening, reapers := s.reapers + [Sleeping])
    case GetIdle => s.(idle := s.idle[1..], lent := s.lent + multiset{s.idle[0]})
    case GetFresh => s.(lent := s.lent + multiset{s.total}, total := s.total + 1)
    case Put(c) =>
      var back := s.(lent := s.lent - multiset{c});
      if !s.closed && |s.idle| < s.maxConns then back.(idle := s.idle + [c])
      else back.(shut := s.shut + multiset{c})
    case CloseLock => s.(closed := true, closer := Closing(0, false, None))
    case CloseCheck =>
      s.(closer := if s.closer.i < |s.idle| then s.closer.(due := true) else NotClosing)
    case CloseReceive => s.(idle := s.idle[1..], closer := s.closer.(hand := Some(s.idle[0])))
    case CloseShut =>
      s.(shut := s.shut + multiset{s.closer.hand.value}, closer := Closing(s.closer.i + 1, false, None))
    case ReapWake(r) => s.(reapers := s.reapers[r := Reaping(|s.idle| - s.minConns, 0, None)])
    case ReapReceive(r) =>
      s.(idle := s.idle[1..], reapers := s.reapers[r := s.reapers[r].(hand := Some(s.idle[0]))])
    case ReapShut(r) =>
      s.(shut := s.shut + multiset{s.reapers[r].hand.value},
         reapers := s.reapers[r := Reaping(s.reapers[r].n, s.reapers[r].i + 1, None)])
    case ReapDone(r) => s.(reapers := s.reapers[r := Sleeping])
    case ReapExit(r) => s.(reapers := s.reapers[r := Gone])
  }

  // ---- Where a connection can be ----

  function Held(hand: Option<Conn>, c: Conn): nat {
    if hand == Some(c) then 1 else 0
  }

  function HeldBy(r: Reaper, c: Conn): nat {
    if r.Reaping? then Held(r.hand, c) else 0
  }

  function ReapersHold(rs: seq<Reaper>, c: Conn): nat {
    if rs == [] then 0 else ReapersHold(rs[..|rs| - 1], c) + HeldBy(rs[|rs| - 1], c)
  }

  /** How often `c` is found: idle, lent out, closed, or in the hand of the opener, the closer
      or a reaper. */
  function Places(s: State, c: Conn): nat {
    multiset(s.idle)[c] + s.lent[c] + s.shut[c]
    + (if s.opener.Opening? then Held(s.opener.hand, c) else 0)
    + (if s.closer.Closing? then Held(s.closer.hand, c) else 0)
    + ReapersHold(s.reapers, c)
  }

  ghost predicate Inv(s: State) {
    && (forall c: Conn :: Places(s, c) == if c < s.total then 1 else 0)
    && Bounded(s)
  }

  predicate Bounded(s: State) {
    && |s.idle| <= s.maxConns
    && (s.closed ==> s.opener.NotOpening?)
    && (s.closer.Closing? ==> s.closed)
    && (s.opener.Opening? ==> s.closer.NotClosing? && |s.idle| <= s.opener.room + s.opener.i
                              && s.opener.i <= s.minConns && (s.opener.hand.Some? ==> s.opener.i < s.minConns))
  }

  lemma {:induction false} ReaperChanges(rs: seq<Reaper>, k: nat, x: Reaper, c: Conn)
    requires k < |rs|
    ensures ReapersHold(rs[k := x], c) + HeldBy(rs[k], c) == ReapersHold(rs, c) + HeldBy(x, c)
    decreases |rs|
  {
    var n := |rs| - 1;
    if k == n {
      assert rs[k := x][..n] == rs[..n];
    } else {
      assert rs[k := x][..n] == rs[..n][k := x] && rs[k := x][n] == rs[n];
      ReaperChanges(rs[..n], k, x, c);
    }
  }

  predicate IsReaperStep(e: Event) {
    e.ReapWake? || e.ReapReceive? || e.ReapShut? || e.ReapDone? || e.ReapExit?
  }

  lemma FirstIdle(idle: seq<Conn>, c: Conn)
    requires idle != []
    ensures multiset(idle)[c] == multiset(idle[1..])[c] + (if c == idle[0] then 1 else 0)
  {
    HeadTail(idle);
  }

  /** A reaper's step changes its own entry, and at most moves one connection. */
  lemma ReaperConserves(s: State, e: Event, c: Conn)
    requires Enabled(s, e) && IsReaperStep(e)
    ensures Places(Apply(s, e), c) == Places(s, c) && Apply(s, e).total == s.total
  {
    hide ReapersHold;
    var x := Apply(s, e).reapers[e.r];
    ReaperChanges(s.reapers, e.r, x, c);
    if e.ReapReceive? {
      FirstIdle(s.idle, c);
      assert HeldBy(s.reapers[e.r], c) == 0;
      SameButReapers(s, Apply(s, e), c);
    } else if e.ReapShut? {
      assert HeldBy(x, c) == 0;
      SameButReapers(s, Apply(s, e), c);
    } else {
      assert HeldBy(x, c) == HeldBy(s.reapers[e.r], c) == 0;
      SameButReapers(s, Apply(s, e), c);
    }
  }

  lemma SameButReapers(s: State, t: State, c: Conn)
    requires s.lent == t.lent && s.opener == t.opener && s.closer == t.closer
    ensures Places(t, c) - multiset(t.idle)[c] - t.shut[c] - ReapersHold(t.reapers, c)
         == Places(s, c) - multiset(s.idle)[c] - s.shut[c] - ReapersHold(s.reapers, c)
  {
  }

  lemma PutConserves(s: State, back: Conn, c: Conn)
    requires Enabled(s, Put(back))
    ensures Places(Apply(s, Put(back)), c) == Places(s, c) && Apply(s, Put(back)).total == s.total
  {
    hide ReapersHold;
    var t := Apply(s, Put(back));
    assert t.lent[c] == s.lent[c] - if c == back then 1 else 0;
    assert multiset(t.idle)[c] + t.shut[c] == multiset(s.idle)[c] + s.shut[c] + if c == back then 1 else 0;
  }

  lemma CallerConserves(s: State, e: Event, c: Conn)
    requires Enabled(s, e) && (e.GetIdle? || e.GetFresh? || e.Put?)
    ensures var t := Apply(s, e);
            Places(t, c) == Places(s, c) + (if t.total > s.total && c == s.total then 1 else 0)
  {
    hide ReapersHold;
    if e.GetIdle? {
      FirstIdle(s.idle, c);
    } else if e.Put? {
      PutConserves(s, e.c, c);
    }
  }

  /** No step creates or loses a connection, except that connecting adds the next number. */
  lemma StepConserves(s: State, e: Event, c: Conn)
    requires Enabled(s, e)
    ensures var t := Apply(s, e);
            Places(t, c) == Places(s, c) + (if t.total > s.total && c == s.total then 1 else 0)
  {
    if IsReaperStep(e) {
      ReaperConserves(s, e, c);
    } else if e.GetIdle? || e.GetFresh? || e.Put? {
      CallerConserves(s, e, c);
    } else if e.OpenDone? {
      assert (s.reapers + [Sleeping])[..|s.reapers|] == s.reapers;
    } else if s.opener.Opening? && (e.OpenConnect? || e.OpenSend?) {
      OpenerConserves(s, e, c);
    } else {
      CloserConserves(s, e, c);
    }
  }

  lemma OpenerConserves(s: State, e: Event, c: Conn)
    requires Enabled(s, e) && (e.OpenConnect? || e.OpenSend?)
    ensures var t := Apply(s, e);
            Places(t, c) == Places(s, c) + (if t.total > s.total && c == s.total then 1 else 0)
  {
    hide ReapersHold;
  }

  lemma CloserConserves(s: State, e: Event, c: Conn)
    requires Enabled(s, e) && (e.OpenLock? || e.CloseLock? || e.CloseCheck? || e.CloseReceive? || e.CloseShut?)
    ensures Places(Apply(s, e), c) == Places(s, c) && Apply(s, e).total == s.total
  {
    hide ReapersHold;
    if s.idle != [] { FirstIdle(s.idle, c); }
  }

  lemma StepKeepsInv(s: State, e: Event)
    requires Inv(s) && Enabled(s, e)
    ensures Inv(Apply(s, e))
  {
    hide Places;
    forall c: Conn ensures Places(Apply(s, e), c) == if c < Apply(s, e).total then 1 else 0 {
      StepConserves(s, e, c);
    }
  }

  // ---- Whole runs ----

  function RunFrom(s: State, es: seq<Event>): Option<State>
    decreases |es|
  {
    if es == [] then Some(s)
    else if !Enabled(s, es[0]) then None
    else RunFrom(Apply(s, es[0]), es[1..])
  }

  lemma {:induction false} RunKeepsInv(s: State, es: seq<Event>)
    requires Inv(s) && RunFrom(s, es).Some?
    ensures Inv(RunFrom(s, es).value)
    decreases |es|
  {
    if es != [] {
      StepKeepsInv(s, es[0]);
      RunKeepsInv(Apply(s, es[0]), es[1..]);
    }
  }

  lemma InitInv(minConns: nat, maxConns: nat)
    ensures Inv(Init(minConns, maxConns))
  {
  }

  /** In every interleaving each connection opened so far is in exactly one place, so none is
      lent twice, and the channel never holds more than maxConns. */
  lemma PoolConservation(minConns: nat, maxConns: nat, es: seq<Event>, s: State)
    requires RunFrom(Init(minConns, maxConns), es) == Some(s)
    ensures |s.idle| <= s.maxConns
    ensures forall c: Conn :: Places(s, c) == if c < s.total then 1 else 0
    ensures forall c: Conn :: s.lent[c] <= 1 && multiset(s.idle)[c] + s.lent[c] <= 1
  {
    InitInv(minConns, maxConns);
    RunKeepsInv(Init(minConns, maxConns), es);
    forall c: Conn ensures s.lent[c] <= 1 && multiset(s.idle)[c] + s.lent[c] <= 1 {
      assert multiset(s.idle)[c] + s.lent[c] <= Places(s, c);
    }
  }

  /** Open finds room in the channel for every connection when there was room for all of them
      at the start; nobody else can add one meanwhile. */
  lemma OpenNeverBlocks(s: State)
    requires Inv(s) && s.opener.Opening? && s.opener.room + s.minConns <= s.maxConns && s.opener.hand.Some?
    ensures Enabled(s, OpenSend)
  {
  }

  /** Once the pool is closed, the idle connections only ever become fewer, from the front; none
      is opened, and none is lent out any more. */
  lemma {:induction false} ClosedPoolOnlyShrinks(s: State, es: seq<Event>, t: State)
    requires Inv(s) && s.closed && RunFrom(s, es) == Some(t)
    ensures t.closed && exists k :: 0 <= k <= |s.idle| && t.idle == s.idle[k..]
    ensures t.total == s.total && t.lent <= s.lent
    decreases |es|
  {
    if es == [] {
      assert t.idle == s.idle[0..];
    } else {
      var u := Apply(s, es[0]);
      StepKeepsInv(s, es[0]);
      ClosedPoolOnlyShrinks(u, es[1..], t);
      var j: nat := if u.idle == s.idle then 0 else 1;
      assert u.idle == s.idle[j..];
      var k :| 0 <= k <= |u.idle| && t.idle == u.idle[k..];
      assert t.idle == s.idle[j + k..];
    }
  }

  lemma RunCons(s: State, e: Event, es: seq<Event>)
    requires Enabled(s, e)
    ensures RunFrom(s, [e] + es) == RunFrom(Apply(s, e), es)
  {
    assert ([e] + es)[1..] == es;
  }

  /** While Open or Close holds the mutex, nobody takes or gives back a connection, only the
      opener adds one, and only its holder's last step frees it. */
  lemma MutexExcludes(s: State, e: Event)
    requires Inv(s) && !MutexFree(s) && Enabled(s, e)
    ensures var t := Apply(s, e);
            && t.lent == s.lent
            && (t.total > s.total ==> e == OpenConnect(true))
            && (|t.idle| > |s.idle| ==> e.OpenSend?)
            && (MutexFree(t) ==> (s.opener.Opening? && (e.OpenDone? || e == OpenConnect(false)))
                                 || (s.closer.Closing? && e.CloseCheck?))
  {
  }

  /** A reaper counts under the mutex but receives without it: with one connection more than
      the minimum, a Get that comes in between makes it reap below minConns. */
  lemma ReaperCanUndershoot(s: State, r: nat)
    requires MutexFree(s) && !s.closed && r < |s.reapers| && s.reapers[r].Sleeping?
    requires s.minConns > 0 && |s.idle| == s.minConns + 1
    ensures var t := RunFrom(s, [ReapWake(r)] + ([GetIdle] + ([ReapReceive(r)] + [])));
            t.Some? && |t.value.idle| < t.value.minConns
  {
    RunCons(s, ReapWake(r), [GetIdle] + ([ReapReceive(r)] + []));
    var s1 := Apply(s, ReapWake(r));
    RunCons(s1, GetIdle, [ReapReceive(r)] + []);
    RunCons(Apply(s1, GetIdle), ReapReceive(r), []);
  }

  /** A Close that has passed its loop test and then finds the channel drained by a reaper
      waits for ever: whatever happens, it makes no further step. */
  lemma {:induction false} DrainedCloseWaitsForEver(s: State, es: seq<Event>, t: State)
    requires Inv(s) && s.closer.Closing? && s.closer.due && s.closer.hand.None? && s.idle == []
    requires RunFrom(s, es) == Some(t)
    ensures t.closer == s.closer && t.idle == [] && !MutexFree(t)
    decreases |es|
  {
    if es != [] {
      StepKeepsInv(s, es[0]);
      DrainedCloseWaitsForEver(Apply(s, es[0]), es[1..], t);
    }
  }
}
