/**
 The two timers of a hint session: which calls start them, for how long, and what a boost can
 rely on.
 */
module HintTimers {
  import opened CppInt
  import opened TrueMin

  /** Calls of `updateTimer` on the session's two timers. */
  datatype TimerCall = StaleTimer(delay: int) | BoostTimer(delay: int)

  function StaleDelay(duration: int, factor: real): int {
    Trunc(duration as real * factor)
  }

  /** How long a reset hint boosts for. */
  function ResetDelay(duration: int, factor: real): int {
    Trunc(duration as real * factor / 2.0)
  }

  /** A hint that boosts starts the boost timer before it changes the minimum. */
  function BoostCalls(op: Op, duration: int, factor: real): seq<TimerCall> {
    match op
    case SendHint(LoadUp) => [BoostTimer(duration * 2)]
    case SendHint(LoadReset) => [BoostTimer(ResetDelay(duration, factor))]
    case _ => []
  }

  /** The operations that set the minimum, be it to what it was, and so restart the stale timer. */
  predicate SetsMin(op: Op) {
    match op
    case SendHint(h) => !h.Invalid?
    case Resume => true
    case SetThreads => true
    case Report(_) => true
    case _ => false
  }

  /** A change of minimum restarts the stale timer, unless it is to 0. */
  function StaleCalls(min: int, duration: int, factor: real): seq<TimerCall> {
    if min == 0 then [] else [StaleTimer(StaleDelay(duration, factor))]
  }

  /** All timer calls after `op`, which left the minimum at `min`. */
  function Timed(calls: seq<TimerCall>, op: Op, min: int, duration: int, factor: real): seq<TimerCall> {
    calls + BoostCalls(op, duration, factor) + if SetsMin(op) then StaleCalls(min, duration, factor) else []
  }

  /** The delay is half of what makes a session of that target stale. */
  predicate LastsHalfStale(delay: int, duration: int, factor: real) {
    Truncates(delay, duration as real * factor / 2.0)
  }

  /**
   A LOAD_UP starts the boost timer exactly once, for twice the target, and a LOAD_RESET once, for
   half of what makes the session stale; each comes before the stale timer. Nothing else starts it.
   */
  lemma {:induction false} BoostHintsStartBoostTimer(calls: seq<TimerCall>, op: Op, min: int,
                                                     duration: int, factor: real)
    ensures var all, n := Timed(calls, op, min, duration, factor), |calls|;
            && n <= |all| && all[..n] == calls
            && (op == SendHint(LoadUp) ==> n < |all| && all[n] == BoostTimer(2 * duration))
            && (op == SendHint(LoadReset) ==>
                  n < |all| && all[n].BoostTimer? && LastsHalfStale(all[n].delay, duration, factor))
            && (forall k :: n <= k < |all| && all[k].BoostTimer? ==>
                  k == n && (op == SendHint(LoadUp) || op == SendHint(LoadReset)))
  {
    var delay := duration as real * factor / 2.0;
    TruncatesIsUnique(Trunc(delay), delay);
  }

  /**
   The stale timer is restarted once, as the last thing, exactly by the hints the session knows,
   resuming, new threads and reports, and only if the minimum they leave is not 0.
   */
  lemma {:induction false} MinRestartsStaleTimer(calls: seq<TimerCall>, op: Op, min: int,
                                                 duration: int, factor: real)
    ensures var all, n := Timed(calls, op, min, duration, factor), |calls|;
            var restarts := min != 0
              && op != SendHint(Invalid) && op != BoostTimeout && op != StaleTimeout && op != Pause;
            && n <= |all|
            && (restarts ==> n < |all| && all[|all| - 1].StaleTimer?
                             && Truncates(all[|all| - 1].delay, duration as real * factor))
            && (forall k :: n <= k < |all| && all[k].StaleTimer? ==> restarts && k == |all| - 1)
  {
    TruncatesIsUnique(Trunc(duration as real * factor), duration as real * factor);
  }

  /** A target of one frame at 60 Hz, and sessions that go stale after 20 targets. */
  lemma FrameDelays(calls: seq<TimerCall>)
    ensures Timed(calls, SendHint(LoadUp), 512, 16666666, 20.0)
            == calls + [BoostTimer(33333332), StaleTimer(333333320)]
    ensures Timed(calls, SendHint(LoadReset), 512, 16666666, 20.0)
            == calls + [BoostTimer(166666660), StaleTimer(333333320)]
    ensures Timed(calls, SendHint(LoadDown), 0, 16666666, 20.0) == calls
  {
  }

  // --- Runs ------------------------------------------------------------------------------------

  /** A call with the profile and the target duration in force. */
  datatype Event = Event(op: Op, c: Levels, duration: int, factor: real)

  datatype Course = Course(min: Boost, calls: seq<TimerCall>)

  function After(y: Course, e: Event): Course {
    var b := TrueMin.Step(y.min, e.op, e.c);
    Course(b, Timed(y.calls, e.op, b.currentMin, e.duration, e.factor))
  }

  /** From before the reset hint with which construction ends. */
  function RunTimed(es: seq<Event>): Course {
    if es == [] then Course(Boost(0, Nothing), [])
    else After(RunTimed(es[..|es| - 1]), es[|es| - 1])
  }

  /**
   Call `j` to a timer is the boost timer's, made by event `k`, which saved the minimum that is
   still saved; every later call is the stale timer's.
   */
  predicate StartedAt(es: seq<Event>, k: nat, j: nat) {
    var y := RunTimed(es);
    && k < |es| && j == |RunTimed(es[..k]).calls| < |y.calls|
    && (|| (es[k].op == SendHint(LoadUp) && y.calls[j] == BoostTimer(2 * es[k].duration))
        || (es[k].op == SendHint(LoadReset) && y.calls[j].BoostTimer?
            && LastsHalfStale(y.calls[j].delay, es[k].duration, es[k].factor)))
    && (forall n :: k < n <= |es| ==> RunTimed(es[..n]).min.saved == y.min.saved)
    && (forall i :: j < i < |y.calls| ==> y.calls[i].StaleTimer?)
  }

  predicate Boosting(op: Op) {
    op == SendHint(LoadUp) || op == SendHint(LoadReset)
  }

  /** One event: only the boosting hints save a minimum, and only they start the boost timer. */
  lemma {:induction false} OneEvent(y: Course, e: Event)
    ensures var y', n := After(y, e), |y.calls|;
            && n <= |y'.calls| && y'.calls[..n] == y.calls
            && (Boosting(e.op) ==> n < |y'.calls| && y'.calls[n].BoostTimer?)
            && (e.op == SendHint(LoadUp) ==> y'.calls[n] == BoostTimer(2 * e.duration))
            && (e.op == SendHint(LoadReset) ==>
                  LastsHalfStale(y'.calls[n].delay, e.duration, e.factor))
            && (forall k :: n <= k < |y'.calls| && y'.calls[k].BoostTimer? ==> k == n && Boosting(e.op))
            && (!Boosting(e.op) && y'.min.saved.Just? ==> y.min.saved == y'.min.saved)
  {
    BoostHintsStartBoostTimer(y.calls, e.op, TrueMin.Step(y.min, e.op, e.c).currentMin, e.duration, e.factor);
    hide Timed, LastsHalfStale;
  }

  lemma RunLast(es: seq<Event>)
    requires es != []
    ensures RunTimed(es) == After(RunTimed(es[..|es| - 1]), es[|es| - 1]) && es[..|es|] == es
  {
  }

  /**
   Over any run of calls, with profiles and targets changing at will: while a session is boosted,
   the boost timer was started by the very hint that saved its minimum, for the time that hint
   asks for, and has not been started for anything else since.
   */
  lemma {:induction false} BoostIsTimed(es: seq<Event>)
    requires RunTimed(es).min.saved.Just?
    ensures exists k, j :: StartedAt(es, k, j)
  {
    hide After, LastsHalfStale;
    var init, e := es[..|es| - 1], es[|es| - 1];
    var before := RunTimed(init);
    OneEvent(before, e);
    RunLast(es);
    if Boosting(e.op) {
      var y, k, j := RunTimed(es), |init|, |before.calls|;
      assert forall n :: k < n <= |es| ==> es[..n] == es;
      assert forall i :: j < i < |y.calls| ==> y.calls[i].StaleTimer?;
      assert StartedAt(es, k, j);
    } else {
      BoostIsTimed(init);
      var k, j :| StartedAt(init, k, j);
      StillStarted(es, k, j);
    }
  }

  lemma {:induction false} StillStarted(es: seq<Event>, k: nat, j: nat)
    requires es != [] && StartedAt(es[..|es| - 1], k, j)
    requires RunTimed(es[..|es| - 1]).min.saved == RunTimed(es).min.saved
    requires !Boosting(es[|es| - 1].op)
    ensures StartedAt(es, k, j)
  {
    hide After, LastsHalfStale, RunTimed;
    var init, e := es[..|es| - 1], es[|es| - 1];
    OneEvent(RunTimed(init), e);
    RunLast(es);
    assert init[..k] == es[..k];
    var before, after := RunTimed(init).calls, RunTimed(es).calls;
    assert forall i :: 0 <= i < |before| ==> after[i] == after[..|before|][i];
    forall n | k < n <= |es|
      ensures RunTimed(es[..n]).min.saved == RunTimed(es).min.saved
    {
      if n < |es| {
        assert init[..n] == es[..n];
      }
    }
  }
}
