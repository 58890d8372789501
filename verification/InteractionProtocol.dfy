/**
 The boost handler and its worker thread, interleaved. Every lock-protected region is one
 step, everything the worker does outside the lock is a step of its own, and the answers of
 `poll` and `pread` are chosen by the environment, except that `poll` cannot time out (and so
 cannot keep blocking) while the eventfd counter is positive.
 */
module InteractionProtocol {
  import opened BoostTime
  import opened InteractionHandler
  import opened ToggleLog

  /** Where the worker is. `Asleep` is blocked inside the condition variable. */
  datatype Pc =
    | NoThread
    | Top
    | Asleep
    | BeforeWait
    | FirstPoll(timeoutMs: int)
    | ReadIdle(timeoutMs: int)
    | SecondPoll(timeoutMs: int)
    | AtRelease
    | Done

  datatype PollResult = Aborted | TimedOut | IdleDetected | Failed
  datatype ReadResult = Eof | SaysIdle | SaysBusy

  datatype System = System(
    t: Tunables,
    h: Handler,
    pc: Pc,
    exitUnnotified: bool,  // Exit has left the lock but not yet called notify_all
    now: Timespec)         // the monotonic clock

  datatype Action =
    | Init(fdOpened: bool, eventFdCreated: bool)
    | Acquire(duration: int)
    | ExitLock
    | ExitNotify
    | ExitJoin
    | Tick(now: Timespec)
    | SpuriousWake
    | EnterLoop
    | ReadDuration
    | Poll(result: PollResult)
    | Pread(read: ReadResult)
    | DoRelease

  predicate WorkerAction(a: Action) {
    a.EnterLoop? || a.ReadDuration? || a.Poll? || a.Pread? || a.DoRelease?
  }

  /** What `poll` may answer with the counter at this value. */
  predicate PollMay(eventFd: nat, watchesIdle: bool, r: PollResult) {
    match r
    case Aborted => eventFd > 0
    case TimedOut => eventFd == 0
    case IdleDetected => watchesIdle
    case Failed => true
  }

  /** One step; an action that is not possible in `s` leaves it unchanged. */
  function Next(s: System, a: Action): System {
    match a
    case Init(fd, efd) =>
      if s.pc.NoThread? && fd && efd then s.(h := Initialized(s.h), pc := Top) else s
    case Acquire(duration) =>
      s.(h := Acquired(s.h, s.t, duration, s.now),
         pc := if s.pc.Asleep? && Accepts(s.h, s.t, duration, s.now) then Top else s.pc)
    case ExitLock =>
      if s.h.state == Uninitialized then s
      else s.(h := Exited(s.h), exitUnnotified := true)
    case ExitNotify =>
      if s.exitUnnotified
      then s.(exitUnnotified := false, pc := if s.pc.Asleep? then Top else s.pc)
      else s
    case ExitJoin =>
      if s.pc.Done? && !s.exitUnnotified then s.(pc := NoThread) else s
    case Tick(now) =>
      if ValidTime(now) && Nanos(s.now) <= Nanos(now) then s.(now := now) else s
    case SpuriousWake =>
      if s.pc.Asleep? then s.(pc := Top) else s
    case EnterLoop =>
      if !s.pc.Top? then s
      else if s.h.state == Idle then s.(pc := Asleep)
      else s.(h := Begun(s.h), pc := if s.h.state == Uninitialized then Done else BeforeWait)
    case ReadDuration =>
      if s.pc.BeforeWait? then s.(pc := FirstPoll(s.h.durationMs)) else s
    case Poll(r) =>
      if s.pc.FirstPoll? && PollMay(s.h.eventFd, false, r) then
        s.(pc := if r.TimedOut? then ReadIdle(s.pc.timeoutMs) else AtRelease)
      else if s.pc.SecondPoll? && PollMay(s.h.eventFd, true, r) then
        s.(pc := AtRelease)
      else s
    case Pread(r) =>
      if s.pc.ReadIdle?
      then s.(pc := if r.SaysBusy? then SecondPoll(s.pc.timeoutMs) else AtRelease)
      else s
    case DoRelease =>
      if s.pc.AtRelease? then s.(h := Released(s.h), pc := Top) else s
  }

  function Run(s: System, acts: seq<Action>): System {
    if acts == [] then s
    else Next(Run(s, acts[..|acts| - 1]), acts[|acts| - 1])
  }

  function Start(t: Tunables, now: Timespec): System {
    System(t, Handler(Uninitialized, 0, 0, now, []), NoThread, false, now)
  }

  // --- The handshake ---------------------------------------------------------------------

  /** The worker is between leaving the lock and `Release`. */
  predicate InWait(pc: Pc) {
    pc.BeforeWait? || pc.FirstPoll? || pc.ReadIdle? || pc.SecondPoll? || pc.AtRelease?
  }

  predicate Boosted(h: Handler) {
    h.state == Interaction || h.state == Waiting
  }

  predicate HasTimeout(pc: Pc) {
    pc.FirstPoll? || pc.ReadIdle? || pc.SecondPoll?
  }

  ghost predicate Handshake(s: System) {
    && (s.pc.NoThread? ==> s.h.state == Uninitialized && !s.exitUnnotified)
    && (s.exitUnnotified ==> s.h.state == Uninitialized)
    && (s.h.state != Uninitialized ==>
          && !s.pc.Done?
          && (!InWait(s.pc) ==> s.h.state != Waiting && s.h.eventFd == 0)
          && (InWait(s.pc) ==> (s.h.state == Waiting && s.h.eventFd == 0)
                               || (s.h.state == Interaction && s.h.eventFd == 1)))
    && (s.h.state == Uninitialized && InWait(s.pc) ==> 1 <= s.h.eventFd <= 2)
       // No lost wake-up: the worker sleeps only when idle or when Exit is about to notify.
    && (s.pc.Asleep? ==> s.h.state == Idle || s.exitUnnotified)
       // A wait that has not been aborted times out after the last accepted duration.
    && (HasTimeout(s.pc) && s.h.state == Waiting ==> s.pc.timeoutMs == s.h.durationMs)
  }

  lemma NextKeepsHandshake(s: System, a: Action)
    requires Handshake(s)
    ensures Handshake(Next(s, a))
  {
  }

  lemma {:induction false} HandshakeHolds(t: Tunables, now: Timespec, acts: seq<Action>)
    ensures Handshake(Run(Start(t, now), acts))
  {
    if acts != [] {
      HandshakeHolds(t, now, acts[..|acts| - 1]);
      NextKeepsHandshake(Run(Start(t, now), acts[..|acts| - 1]), acts[|acts| - 1]);
    }
  }

  /**
   In every interleaving: no wait starts with an abort left over from before, the clearing
   read in `Release` never finds an empty counter, and a worker asleep on an initialised
   handler has nothing to do.
   */
  lemma NoStaleAbort(t: Tunables, now: Timespec, acts: seq<Action>)
    ensures var s := Run(Start(t, now), acts);
            && (Next(s, EnterLoop).pc.BeforeWait? && s.pc.Top? ==> Next(s, EnterLoop).h.eventFd == 0)
            && (s.pc.AtRelease? && s.h.state != Waiting ==> s.h.eventFd > 0)
            && (s.h.state == Interaction ==> !s.pc.Asleep?)
            && (s.h.state == Interaction && InWait(s.pc) ==> !PollMay(s.h.eventFd, false, TimedOut))
  {
    HandshakeHolds(t, now, acts);
  }

  // --- The held hint ---------------------------------------------------------------------

  /** There is one hint, and timed hints do not hold it. */
  function HintMeans(c: HintCall): Toggle<()> {
    match c
    case Lock => On(())
    case Rel => Off(())
    case Timed(_) => Neither
  }

  function Held(hints: seq<HintCall>): bool {
    IsOn(HintMeans, hints, ())
  }

  lemma NextKeepsHint(s: System, a: Action)
    requires Handshake(s) && !a.ExitLock?
    requires Alternates(HintMeans, s.h.hints) && (Held(s.h.hints) <==> Boosted(s.h))
    ensures var s' := Next(s, a);
            Alternates(HintMeans, s'.h.hints) && (Held(s'.h.hints) <==> Boosted(s'.h))
  {
    hide IsOn, Alternates, Suppressed, FinalDuration;
    OneCall(HintMeans, s.h.hints, Lock, ());
    OneCall(HintMeans, s.h.hints, Rel, ());
    if a.Acquire? {
      OneCall(HintMeans, s.h.hints, Timed(FinalDuration(s.t, a.duration)), ());
    }
  }

  /** Before any `Exit`, the hint is held exactly while the state is INTERACTION or WAITING. */
  lemma {:induction false} HintHeldExactlyWhileBoosted(t: Tunables, now: Timespec, acts: seq<Action>)
    requires ExitLock !in acts
    ensures var h := Run(Start(t, now), acts).h;
            Alternates(HintMeans, h.hints) && (Held(h.hints) <==> Boosted(h))
  {
    if acts != [] {
      var before := acts[..|acts| - 1];
      HintHeldExactlyWhileBoosted(t, now, before);
      HandshakeHolds(t, now, before);
      NextKeepsHint(Run(Start(t, now), before), acts[|acts| - 1]);
    }
  }

  /** `Exit` ends a boost without ending the hint: it stays held exactly when not idle. */
  lemma HintLeaksOnExit(t: Tunables, now: Timespec, acts: seq<Action>, after: seq<Action>)
    requires ExitLock !in acts
    requires forall a :: a in after ==> !a.Init?
    ensures var s := Run(Start(t, now), acts);
            s.h.state != Uninitialized ==>
              (Held(Run(Next(s, ExitLock), after).h.hints) <==> s.h.state != Idle)
  {
    var s := Run(Start(t, now), acts);
    HintHeldExactlyWhileBoosted(t, now, acts);
    if s.h.state != Uninitialized {
      UninitializedStays(Next(s, ExitLock), after);
    }
  }

  /** Three steps suffice: boosted at once after start-up, a handler that exits keeps the hint. */
  lemma ExitWhileBoostedLeaks(t: Tunables, now: Timespec, duration: int)
    requires t.idleSupport
    ensures var s := Run(Start(t, now), [Init(true, true), Acquire(duration), ExitLock]);
            s.h.state == Uninitialized && s.h.hints == [Lock] && Held(s.h.hints)
  {
    var acts := [Init(true, true), Acquire(duration), ExitLock];
    assert acts[..2] == [Init(true, true), Acquire(duration)] && acts[..2][..1] == [Init(true, true)];
    assert [Init(true, true)][..0] == [];
    var s1 := Next(Start(t, now), Init(true, true));
    assert Run(Start(t, now), acts[..2][..1]) == s1;
    OneCall(HintMeans, s1.h.hints, Lock, ());
  }

  lemma {:induction false} UninitializedStays(s: System, acts: seq<Action>)
    requires s.h.state == Uninitialized
    requires forall a :: a in acts ==> !a.Init?
    ensures var s' := Run(s, acts);
            s'.h.state == Uninitialized && Held(s'.h.hints) == Held(s.h.hints)
  {
    if acts != [] {
      var prev, a := Run(s, acts[..|acts| - 1]), acts[|acts| - 1];
      UninitializedStays(s, acts[..|acts| - 1]);
      hide IsOn, FinalDuration;
      if a.Acquire? {
        OneCall(HintMeans, prev.h.hints, Timed(FinalDuration(prev.t, a.duration)), ());
      }
    }
  }

  // --- No accepted request is lost -------------------------------------------------------

  predicate AcceptsAt(s: System, a: Action) {
    a.Acquire? && Accepts(s.h, s.t, a.duration, s.now)
  }

  predicate BeginsWaitAt(s: System, a: Action) {
    a.EnterLoop? && s.pc.Top? && Boosted(s.h)
  }

  predicate EndsHintAt(s: System, a: Action) {
    a.DoRelease? && s.pc.AtRelease? && s.h.state == Waiting
  }

  ghost predicate QuietSince(s: System, acts: seq<Action>, i: nat) {
    && i < |acts|
    && BeginsWaitAt(Run(s, acts[..i]), acts[i])
    && forall k :: i < k < |acts| ==> !AcceptsAt(Run(s, acts[..k]), acts[k])
  }

  lemma {:induction false} WaitingMeansQuiet(t: Tunables, now: Timespec, acts: seq<Action>) returns (i: nat)
    requires Run(Start(t, now), acts).h.state == Waiting
    ensures QuietSince(Start(t, now), acts, i)
  {
    var s := Start(t, now);
    var n := |acts| - 1;
    HandshakeHolds(t, now, acts[..n]);
    if BeginsWaitAt(Run(s, acts[..n]), acts[n]) {
      i := n;
    } else {
      i := WaitingMeansQuiet(t, now, acts[..n]);
      assert acts[..n][..i] == acts[..i];
      forall k | i < k < |acts|
        ensures !AcceptsAt(Run(s, acts[..k]), acts[k])
      {
        if k < n {
          assert acts[..n][..k] == acts[..k];
        }
      }
    }
  }

  /**
   The hint ends only at the end of a wait during which nothing was accepted: whenever a step
   ends it, the wait began at some earlier step and no request was accepted in between.
   */
  lemma NoAcceptedRequestLost(t: Tunables, now: Timespec, acts: seq<Action>)
    requires EndsHintAt(Run(Start(t, now), acts), DoRelease)
    ensures exists i :: QuietSince(Start(t, now), acts, i)
  {
    var i := WaitingMeansQuiet(t, now, acts);
  }

  // --- Every boost ends --------------------------------------------------------------------

  /** Worker steps left before a boost that gets no more requests is released. */
  function QuietRank(s: System): nat {
    if !Boosted(s.h) then 0
    else
      (if s.h.state == Interaction && InWait(s.pc) then 6 else 0) +
      match s.pc
      case AtRelease => 1
      case SecondPoll(_) => 2
      case ReadIdle(_) => 3
      case FirstPoll(_) => 4
      case BeforeWait => 5
      case _ => 6
  }

  /**
   A boosted handler's worker is never stuck: it has a step that brings the end of the boost
   nearer (or ends it), and needs no failing poll or detected idleness for it.
   */
  lemma BoostNeverBlocks(s: System)
    requires Handshake(s) && Boosted(s.h)
    ensures exists a :: && WorkerAction(a) && (a.Poll? ==> a.result.Aborted? || a.result.TimedOut?)
                        && Next(s, a) != s
                        && (Boosted(Next(s, a).h) ==> QuietRank(Next(s, a)) < QuietRank(s))
  {
    var poll := if s.h.eventFd > 0 then Poll(Aborted) else Poll(TimedOut);
    var a := match s.pc
      case Top => EnterLoop
      case BeforeWait => ReadDuration
      case FirstPoll(_) => poll
      case SecondPoll(_) => poll
      case ReadIdle(_) => Pread(Eof)
      case _ => DoRelease;
    assert WorkerAction(a) && Next(s, a) != s && (Boosted(Next(s, a).h) ==> QuietRank(Next(s, a)) < QuietRank(s));
  }

  lemma QuietStep(s: System, a: Action)
    requires Handshake(s) && !a.Acquire? && !a.ExitLock?
    ensures var s' := Next(s, a);
            Boosted(s'.h) ==>
              && Boosted(s.h)
              && QuietRank(s') + (if WorkerAction(a) && s' != s then 1 else 0) <= QuietRank(s)
  {
  }

  lemma {:induction false} RunInPieces(s: System, a: seq<Action>, b: seq<Action>)
    ensures Run(s, a + b) == Run(Run(s, a), b)
  {
    if b == [] {
      assert a + b == a;
    } else {
      assert (a + b)[..|a + b| - 1] == a + b[..|b| - 1];
      RunInPieces(s, a, b[..|b| - 1]);
    }
  }

  lemma {:induction false} QuietRankFalls(t: Tunables, now: Timespec, start: seq<Action>, acts: seq<Action>)
    requires forall a :: a in acts ==> !a.Acquire? && !a.ExitLock?
    ensures var s := Run(Start(t, now), start);
            var s' := Run(s, acts);
            Boosted(s'.h) ==> Boosted(s.h) && WorkerSteps(s, acts) + QuietRank(s') <= QuietRank(s) <= 12
  {
    if acts != [] {
      var before := acts[..|acts| - 1];
      QuietRankFalls(t, now, start, before);
      HandshakeHolds(t, now, start + before);
      RunInPieces(Start(t, now), start, before);
      hide Handshake, Next, QuietRank, Boosted;
      QuietStep(Run(Run(Start(t, now), start), before), acts[|acts| - 1]);
    }
  }

  /**
   Without new requests a boost lasts at most as many worker steps as its rank, so after twelve
   of them it is over and its hint is no longer held.
   */
  lemma {:induction false} QuietBoostEnds(t: Tunables, now: Timespec, start: seq<Action>, acts: seq<Action>)
    requires ExitLock !in start
    requires forall a :: a in acts ==> !a.Acquire? && !a.ExitLock?
    ensures var s := Run(Start(t, now), start);
            var s' := Run(s, acts);
            && (Held(s'.h.hints) <==> Boosted(s'.h))
            && (Boosted(s'.h) ==> Boosted(s.h) && WorkerSteps(s, acts) + QuietRank(s') <= QuietRank(s) <= 12)
  {
    RunInPieces(Start(t, now), start, acts);
    HintHeldExactlyWhileBoosted(t, now, start + acts);
    QuietRankFalls(t, now, start, acts);
  }

  // --- Shutdown --------------------------------------------------------------------------

  /** How many steps of its own the worker has left, at most, once `Exit` left the lock. */
  function Rank(pc: Pc): nat {
    match pc
    case NoThread => 0
    case Done => 0
    case Top => 1
    case Asleep => 1
    case AtRelease => 2
    case SecondPoll(_) => 3
    case ReadIdle(_) => 4
    case FirstPoll(_) => 5
    case BeforeWait => 6
  }

  /** The steps the worker really takes along a run. */
  ghost function WorkerSteps(s: System, acts: seq<Action>): nat {
    if acts == [] then 0
    else
      var prev, a := Run(s, acts[..|acts| - 1]), acts[|acts| - 1];
      WorkerSteps(s, acts[..|acts| - 1]) + if WorkerAction(a) && Next(prev, a) != prev then 1 else 0
  }

  /** After `Exit`, the worker is neither asleep for ever nor blocked in a poll. */
  lemma NeverBlocksAfterExit(s: System)
    requires Handshake(s) && s.h.state == Uninitialized
    ensures s.pc.Asleep? ==> Next(s, ExitNotify).pc == Top
    ensures !s.pc.Asleep? && !s.pc.Done? && !s.pc.NoThread? ==>
              exists a :: WorkerAction(a) && Next(s, a).pc != s.pc && Rank(Next(s, a).pc) < Rank(s.pc)
    ensures s.pc.FirstPoll? || s.pc.SecondPoll? ==>
              PollMay(s.h.eventFd, s.pc.SecondPoll?, Aborted) && !PollMay(s.h.eventFd, s.pc.SecondPoll?, TimedOut)
  {
    var a := match s.pc
      case Top => EnterLoop
      case BeforeWait => ReadDuration
      case FirstPoll(_) => Poll(Aborted)
      case SecondPoll(_) => Poll(Aborted)
      case ReadIdle(_) => Pread(Eof)
      case _ => DoRelease;
    if !s.pc.Asleep? && !s.pc.Done? && !s.pc.NoThread? {
      assert WorkerAction(a) && Next(s, a).pc != s.pc && Rank(Next(s, a).pc) < Rank(s.pc);
    }
  }

  /** Each of the worker's own steps uses up rank, whatever else happens in between. */
  lemma {:induction false} WorkerEndsAfterExit(s: System, acts: seq<Action>)
    requires Handshake(s) && s.h.state == Uninitialized
    requires forall a :: a in acts ==> !a.Init?
    ensures var s' := Run(s, acts);
            && Handshake(s') && s'.h.state == Uninitialized
            && WorkerSteps(s, acts) + Rank(s'.pc) <= Rank(s.pc)
            && (WorkerSteps(s, acts) == Rank(s.pc) ==> s'.pc.Done? || s'.pc.NoThread?)
  {
    if acts != [] {
      var prev, a := Run(s, acts[..|acts| - 1]), acts[|acts| - 1];
      WorkerEndsAfterExit(s, acts[..|acts| - 1]);
      NextKeepsHandshake(prev, a);
    }
  }

  // --- Deadlines -------------------------------------------------------------------------

  function RequestDeadline(t: Tunables, duration: int, now: Timespec): int {
    Nanos(now) + FinalDuration(t, duration) * NSEC_IN_MSEC
  }

  /** When the remembered boost runs out: last accepted time plus its duration. */
  function Deadline(h: Handler): int {
    Nanos(h.last) + h.durationMs * NSEC_IN_MSEC
  }

  /**
   While boosted, an accepted request moves the deadline strictly later, and a suppressed one
   would have ended less than a millisecond after the deadline that stays.
   */
  lemma AcceptMovesDeadline(h: Handler, t: Tunables, duration: int, now: Timespec)
    requires t.idleSupport && Boosted(h)
    requires ValidTime(h.last) && ValidTime(now) && Nanos(h.last) <= Nanos(now)
    ensures var h' := Acquired(h, t, duration, now);
            if Accepts(h, t, duration, now)
            then Deadline(h') == RequestDeadline(t, duration, now) > Deadline(h)
            else Deadline(h') == Deadline(h) > RequestDeadline(t, duration, now) - NSEC_IN_MSEC
  {
    ElapsedWithinOneMs(h.last, now);
  }

  /** The deadlines requested since the current boost began (empty when idle). */
  function Requested(s: System, acts: seq<Action>): seq<int> {
    if acts == [] then []
    else
      var prev, a := Run(s, acts[..|acts| - 1]), acts[|acts| - 1];
      var sofar := Requested(s, acts[..|acts| - 1]);
      if a.Acquire? && prev.t.idleSupport && prev.h.state != Uninitialized then
        (if prev.h.state == Idle then [] else sofar) + [RequestDeadline(prev.t, a.duration, prev.now)]
      else sofar
  }

  /** `d` is the maximum of `asked` up to one millisecond: one of them, and short of none by more. */
  predicate RunningMax(d: int, asked: seq<int>) {
    d in asked && forall r :: r in asked ==> r < d + NSEC_IN_MSEC
  }

  /** In every run the remembered deadline is the running maximum, up to 1 ms, of all requests. */
  lemma {:induction false} DeadlineIsRunningMax(t: Tunables, now: Timespec, acts: seq<Action>)
    requires ValidTime(now)
    ensures var s := Run(Start(t, now), acts);
            && s.t == t && ValidTime(s.now) && ValidTime(s.h.last) && Nanos(s.h.last) <= Nanos(s.now)
            && (Boosted(s.h) ==> RunningMax(Deadline(s.h), Requested(Start(t, now), acts)))
  {
    if acts != [] {
      var prev, a := Run(Start(t, now), acts[..|acts| - 1]), acts[|acts| - 1];
      DeadlineIsRunningMax(t, now, acts[..|acts| - 1]);
      if a.Acquire? && t.idleSupport && Boosted(prev.h) {
        AcceptMovesDeadline(prev.h, t, a.duration, prev.now);
      }
    }
  }
}
