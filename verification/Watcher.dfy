/** The cancellation protocol of a connection: the goroutine that runs operations, the watcher
    goroutine, and any other goroutine that closes the connection, as interleaved atomic steps. */
module Watcher {
  import opened Bytes

  /** Where the goroutine running operations stands. */
  datatype User =
    | Idle        // no operation
    | Sending     // watchCancel: `watching` is set, the context is about to be sent
    | Running     // the operation itself
    | Finishing   // in the select of finish()

  /** Where the watcher goroutine stands; `op` is the operation of the context it holds. */
  datatype Watch =
    | WaitCtx            // first select
    | Holding(op: nat)   // second select
    | Cancel(op: nat)    // cancel(): about to set `canceled`
    | Swap(op: nat)      // cleanup(): about to swap `closed`
    | Close(op: nat)     // cleanup(): about to close `closech`
    | Exited

  datatype Closer = ByUser | ByWatcher(op: nat) | ByOther

  /** `op` numbers the operations; `done` are those whose context has been cancelled; a context
      is known by its operation. `closes` counts the times closech was closed. */
  datatype State = State(
    user: User, op: nat, watching: bool, slot: Option<nat>, watch: Watch, done: set<nat>,
    closed: bool, closedBy: Option<Closer>, pending: set<Closer>, closes: nat, canceled: Option<nat>)

  const INIT := State(Idle, 0, false, None, WaitCtx, {}, false, None, {}, 0, None)

  datatype Event =
    // the goroutine running operations
    | BeginStale | BeginUnwatched | BeginWatched | Send | UserSwap | UserClose
    | FinishSkip | FinishStart | FinishMeet | FinishClosed
    // the watcher
    | Take | SeeDone | SetCanceled | WatcherSwap | WatcherClose | Exit
    // everything else
    | OtherSwap | OtherClose | ContextDone(op: nat)

  predicate ClosechClosed(s: State) {
    s.closes > 0
  }

  predicate Enabled(s: State, e: Event) {
    match e
    case BeginStale => s.user.Idle? && s.watching && ByUser !in s.pending
    case BeginUnwatched => s.user.Idle? && !s.watching && ByUser !in s.pending
    case BeginWatched => s.user.Idle? && !s.watching && ByUser !in s.pending
    case Send => s.user.Sending? && s.slot.None?
    case UserSwap => (s.user.Running? || s.user.Idle?) && ByUser !in s.pending
    case UserClose => ByUser in s.pending
    case FinishSkip => s.user.Running? && !s.watching && ByUser !in s.pending
    case FinishStart => s.user.Running? && s.watching && ByUser !in s.pending
    case FinishMeet => s.user.Finishing? && s.watch.Holding?
    case FinishClosed => s.user.Finishing? && ClosechClosed(s)
    case Take => s.watch.WaitCtx? && s.slot.Some?
    case SeeDone => s.watch.Holding? && s.watch.op in s.done
    case SetCanceled => s.watch.Cancel?
    case WatcherSwap => s.watch.Swap?
    case WatcherClose => s.watch.Close?
    case Exit => (s.watch.WaitCtx? || s.watch.Holding?) && ClosechClosed(s)
    case OtherSwap => true
    case OtherClose => ByOther in s.pending
    case ContextDone(op) => true
  }

  /** closed.Swap(true): the first caller goes on to close closech. */
  function Swapped(s: State, who: Closer): State {
    if s.closed then s else s.(closed := true, closedBy := Some(who), pending := s.pending + {who})
  }

  function Closed(s: State, who: Closer): State {
    s.(pending := s.pending - {who}, closes := s.closes + 1)
  }

  function Apply(s: State, e: Event): State
    requires Enabled(s, e)
  {
    match e
    // watchCancel while the last operation is still watched: the connection is closed
    case BeginStale => Swapped(s.(user := Running, op := s.op + 1), ByUser)
    case BeginUnwatched => s.(user := Running, op := s.op + 1)
    case BeginWatched => s.(user := Sending, op := s.op + 1, watching := true)
    case Send => s.(user := Running, slot := Some(s.op))
    case UserSwap => Swapped(s, ByUser)
    case UserClose => Closed(s, ByUser)
    case FinishSkip => s.(user := Idle)
    case FinishStart => s.(user := Finishing)
    case FinishMeet => s.(user := Idle, watching := false, watch := WaitCtx)
    case FinishClosed => s.(user := Idle)
    case Take => s.(watch := Holding(s.slot.value), slot := None)
    case SeeDone => s.(watch := Cancel(s.watch.op))
    case SetCanceled => s.(canceled := Some(s.watch.op), watch := Swap(s.watch.op))
    case WatcherSwap =>
      var who := ByWatcher(s.watch.op);
      Swapped(s, who).(watch := if s.closed then WaitCtx else Close(s.watch.op))
    case WatcherClose => Closed(s, ByWatcher(s.watch.op)).(watch := WaitCtx)
    case Exit => s.(watch := Exited)
    case OtherSwap => Swapped(s, ByOther)
    case OtherClose => Closed(s, ByOther)
    case ContextDone(op) => s.(done := s.done + {op})
  }

  predicate HoldsContext(w: Watch) {
    w.Holding? || w.Cancel? || w.Swap? || w.Close?
  }

  // ---- The invariant ----

  ghost predicate ClosingInv(s: State) {
    && (!s.closed ==> s.closes == 0 && s.pending == {} && s.closedBy.None?)
    && (s.closed ==> s.closedBy.Some? && (s.closes == 1 ==> s.pending == {})
                     && (s.closes == 0 ==> s.pending == {s.closedBy.value}) && s.closes <= 1)
    && (s.watch.Close? <==> exists c :: c in s.pending && c.ByWatcher?)
    && (s.watch.Close? ==> ByWatcher(s.watch.op) in s.pending)
    && (s.watch.Exited? ==> ClosechClosed(s))
  }

  ghost predicate ContextInv(s: State) {
    && (!s.watching ==> s.slot.None? && !HoldsContext(s.watch) && !s.user.Sending? && !s.user.Finishing?)
    && (s.user.Sending? ==> s.slot.None? && !HoldsContext(s.watch))
    && (s.slot.Some? ==> !HoldsContext(s.watch))
    // until closech is closed, a registered context belongs to the operation in progress
    && (s.watching && !ClosechClosed(s) ==> !s.user.Idle?)
    && (!ClosechClosed(s) ==> (s.slot.Some? ==> s.slot.value == s.op) && (HoldsContext(s.watch) ==> s.watch.op == s.op))
    // a registered context that is gone was lost to a connection that somebody has closed
    && (s.watching && !s.user.Sending? && s.slot.None? && !HoldsContext(s.watch) ==> s.closed)
  }

  ghost predicate CancelInv(s: State) {
    && (s.canceled.Some? ==> s.canceled.value in s.done)
    && (s.watch.Cancel? || s.watch.Swap? || s.watch.Close? ==> s.watch.op in s.done)
    && (s.watch.Swap? || s.watch.Close? ==> s.canceled == Some(s.watch.op))
    && (s.closedBy.Some? && s.closedBy.value.ByWatcher? ==>
          && s.canceled == Some(s.closedBy.value.op)
          && s.watching && s.slot.None? && !s.user.Sending?
          && (s.watch.Close? || s.watch.WaitCtx? || s.watch.Exited?))
  }

  ghost predicate Inv(s: State) {
    ClosingInv(s) && ContextInv(s) && CancelInv(s)
  }

  lemma InitInv()
    ensures Inv(INIT)
  {
  }

  lemma StepKeepsInv(s: State, e: Event)
    requires Inv(s) && Enabled(s, e)
    ensures Inv(Apply(s, e))
  {
  }

  // ---- Whole runs ----

  /** The state after performing `es` in order from the start; None if a step was blocked. */
  function Run(es: seq<Event>): Option<State>
    decreases |es|
  {
    if es == [] then Some(INIT)
    else match Run(es[..|es| - 1])
      case None => None
      case Some(p) => if Enabled(p, es[|es| - 1]) then Some(Apply(p, es[|es| - 1])) else None
  }

  lemma {:induction false} ReachedInv(es: seq<Event>, s: State)
    requires Run(es) == Some(s)
    ensures Inv(s)
    decreases |es|
  {
    if es != [] {
      var p := Run(es[..|es| - 1]).value;
      ReachedInv(es[..|es| - 1], p);
      StepKeepsInv(p, es[|es| - 1]);
    }
  }

  /** mc.error() */
  function ErrorOf(s: State): Option<Option<nat>> {
    if s.closed then Some(s.canceled) else None
  }

  /** In every state of every interleaving: sending a context never blocks; once `watching` is
      clear the slot is empty and the watcher holds no context; closech is closed at most once;
      the watcher closes the connection only during the operation whose context it holds; an
      operation is cancelled, and the connection closed for it, only once its context is done;
      and if it was the watcher that closed it, error() reports that context's error. */
  lemma WatcherSafety(es: seq<Event>, s: State)
    requires Run(es) == Some(s)
    ensures s.user.Sending? ==> Enabled(s, Send)
    ensures !s.watching ==> s.slot.None? && !HoldsContext(s.watch)
    ensures s.closes <= 1
    ensures s.closes == 1 ==> !Enabled(s, UserClose) && !Enabled(s, WatcherClose) && !Enabled(s, OtherClose)
    ensures Enabled(s, WatcherSwap) && !s.closed ==> s.watch.op == s.op && (s.user.Running? || s.user.Finishing?)
    ensures s.watch.Cancel? || s.watch.Swap? || s.watch.Close? ==> s.watch.op in s.done
    ensures forall op: nat :: s.canceled == Some(op) ==> op in s.done
    ensures forall op: nat :: s.closedBy == Some(ByWatcher(op)) ==> op in s.done && ErrorOf(s) == Some(Some(op))
    ensures forall op: nat :: ErrorOf(s) == Some(Some(op)) ==> op in s.done
  {
    ReachedInv(es, s);
  }

  /** A context that is done while the watcher holds it takes effect: the watcher's next steps
      are free to happen, close the connection, and leave that context's error unless somebody
      else had closed it before. */
  lemma DoneContextCloses(es: seq<Event>, s: State)
    requires Run(es) == Some(s) && s.watch.Holding? && s.watch.op in s.done
    ensures Enabled(s, SeeDone) && Enabled(Apply(s, SeeDone), SetCanceled)
    ensures var u := Apply(Apply(s, SeeDone), SetCanceled);
            && Enabled(u, WatcherSwap)
            && var t := Apply(u, WatcherSwap);
               t.closed
               && (s.closed ==> t.closedBy == s.closedBy && t.watch.WaitCtx?)
               && (!s.closed ==> t.closedBy == Some(ByWatcher(s.op)) && ErrorOf(t) == Some(Some(s.op))
                                 && Enabled(t, WatcherClose) && Apply(t, WatcherClose).closes == 1)
  {
    ReachedInv(es, s);
  }

  // ---- Progress of finish() ----

  /** A step of the watcher or of a goroutine that is closing the connection. */
  predicate SystemStep(e: Event) {
    e.Take? || e.SeeDone? || e.SetCanceled? || e.WatcherSwap? || e.WatcherClose? || e.Exit?
    || e.OtherSwap? || e.OtherClose? || e.UserClose?
  }

  predicate FinishReturns(s: State) {
    Enabled(s, FinishMeet) || Enabled(s, FinishClosed)
  }

  function Distance(s: State): nat {
    (match s.watch
     case WaitCtx => if s.slot.Some? then 6 else 1
     case Holding(_) => 5
     case Cancel(_) => 4
     case Swap(_) => 3
     case Close(_) => 2
     case Exited => 0)
    + (if s.closed then 0 else 1) + (if s.closes > 0 then 0 else 1)
  }

  /** While finish() waits, it can return at once or the system can take a step, and every
      effective step of the system brings the return nearer. */
  lemma FinishProgress(es: seq<Event>, s: State)
    requires Run(es) == Some(s) && s.user.Finishing?
    ensures FinishReturns(s) || exists e :: SystemStep(e) && Enabled(s, e) && Apply(s, e) != s
    ensures forall e :: SystemStep(e) && Enabled(s, e) && Apply(s, e) != s ==>
                          Distance(Apply(s, e)) < Distance(s) && Apply(s, e).user.Finishing?
  {
    hide Inv, Distance, FinishReturns;
    ReachedInv(es, s);
    if !FinishReturns(s) {
      var e := Nearer(s);
    }
    forall e | SystemStep(e) && Enabled(s, e) && Apply(s, e) != s
      ensures Distance(Apply(s, e)) < Distance(s) && Apply(s, e).user.Finishing?
    {
      StepBringsNearer(s, e);
    }
  }

  lemma StepBringsNearer(s: State, e: Event)
    requires Inv(s) && s.user.Finishing? && SystemStep(e) && Enabled(s, e) && Apply(s, e) != s
    ensures Distance(Apply(s, e)) < Distance(s) && Apply(s, e).user.Finishing?
  {
  }

  /** The step that is due when finish() cannot return yet. */
  lemma Nearer(s: State) returns (e: Event)
    requires Inv(s) && s.user.Finishing? && !FinishReturns(s)
    ensures SystemStep(e) && Enabled(s, e) && Apply(s, e) != s
  {
    match s.watch
    case Cancel(_) => e := SetCanceled;
    case Swap(_) => e := WatcherSwap;
    case Close(_) => e := WatcherClose;
    case WaitCtx =>
      if s.slot.Some? {
        e := Take;
      } else {
        e := if ByUser in s.pending then UserClose else OtherClose;
      }
    case Holding(_) => assert false;
    case Exited => assert false;
  }

  /** Number of effective system steps in a run during which finish() keeps waiting. */
  ghost predicate Waits(s: State, es: seq<Event>, t: State, steps: nat)
    decreases |es|
  {
    if es == [] then s == t && steps == 0
    else
      var e := es[0];
      && s.user.Finishing? && Enabled(s, e) && (SystemStep(e) || e.ContextDone?)
      && (if SystemStep(e) && Apply(s, e) != s then steps > 0 && Waits(Apply(s, e), es[1..], t, steps - 1)
          else Waits(Apply(s, e), es[1..], t, steps))
  }

  /** Whatever the schedule, after at most eight effective steps of the other goroutines
      finish() can return: it is neither blocked for ever nor kept waiting for ever. */
  lemma {:induction false} FinishWaitsAtMostEightSteps(before: seq<Event>, s: State, es: seq<Event>, t: State,
      steps: nat)
    requires Run(before) == Some(s) && s.user.Finishing? && Waits(s, es, t, steps)
    ensures steps + Distance(t) <= Distance(s) <= 8
    ensures steps == Distance(s) ==> FinishReturns(t)
    decreases |es|
  {
    if es == [] {
      ReachedInv(before, s);
      if Distance(s) == 0 { assert FinishReturns(s); }
    } else {
      var u := Apply(s, es[0]);
      assert (before + [es[0]])[..|before|] == before;
      assert Run(before + [es[0]]) == Some(u);
      FinishProgress(before, s);
      FinishWaitsAtMostEightSteps(before + [es[0]], u, es[1..], t,
                                  if SystemStep(es[0]) && u != s then steps - 1 else steps);
    }
  }
}
