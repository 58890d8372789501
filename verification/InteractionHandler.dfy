/**
 The interaction boost handler: its lock-protected regions as methods of a class, each one
 proved to be a step of the value-level `Handler` below, which the protocol proofs use.
 */
module InteractionHandler {
  import opened BoostTime

  datatype State = Uninitialized | Idle | Interaction | Waiting

  /** Calls made to the hint manager: `Lock`/`Rel` hold and end the hint, `Timed` is the fallback. */
  datatype HintCall = Lock | Rel | Timed(ms: int)

  datatype Handler = Handler(
    state: State,
    eventFd: nat,       // the eventfd counter
    durationMs: int,
    last: Timespec,
    hints: seq<HintCall>)

  /** A hint already running covers this request, going by whole milliseconds. */
  predicate Suppressed(h: Handler, final: int, now: Timespec) {
    && h.state != Idle
    && final <= h.durationMs
    && ElapsedMs(h.last, now) <= h.durationMs - final
  }

  /** The request reaches the state machine and is not suppressed. */
  predicate Accepts(h: Handler, t: Tunables, duration: int, now: Timespec) {
    && t.idleSupport
    && h.state != Uninitialized
    && !Suppressed(h, FinalDuration(t, duration), now)
  }

  function Acquired(h: Handler, t: Tunables, duration: int, now: Timespec): Handler {
    var final := FinalDuration(t, duration);
    if !t.idleSupport || h.state == Uninitialized then
      h.(hints := h.hints + [Timed(final)])
    else if Suppressed(h, final, now) then
      h
    else
      h.(state := Interaction,
         durationMs := final,
         last := now,
         eventFd := if h.state == Waiting then h.eventFd + 1 else h.eventFd,
         hints := if h.state == Idle then h.hints + [Lock] else h.hints)
  }

  /**
   What a request does, in the four ways it can end. Its length is the request plus offset,
   clamped into the configured range, or the longest one if that sum is negative. Without idle
   support, or before `Init`, the hint manager just gets a hint of that length. Otherwise a hint
   that ends no earlier (going by whole milliseconds) suppresses it; else it is remembered with
   the time, and it takes the hint if nobody holds it, or wakes a waiting worker.
   */
  lemma AcquireByCases(h: Handler, t: Tunables, duration: int, now: Timespec)
    requires ValidTunables(t) && IsInt32(duration)
    ensures var h', sum := Acquired(h, t, duration, now), duration + t.offsetMs;
            var ms := if sum < 0 then t.maxMs else Clamp(t.minMs, t.maxMs, sum);
            if !t.idleSupport || h.state == Uninitialized then h' == h.(hints := h.hints + [Timed(ms)])
            else if h.state != Idle && ms + ElapsedMs(h.last, now) <= h.durationMs then h' == h
            else
              && h'.state == Interaction && h'.durationMs == ms && h'.last == now
              && h'.hints == h.hints + (if h.state == Idle then [Lock] else [])
              && h'.eventFd == h.eventFd + (if h.state == Waiting then 1 else 0)
  {
    FinalDurationIsClampUnlessNegative(t, duration);
    hide FinalDuration;
    assert h.hints + [] == h.hints;
  }

  function Released(h: Handler): Handler {
    if h.state == Waiting then h.(state := Idle, hints := h.hints + [Rel])
    else h.(eventFd := 0)
  }

  function Exited(h: Handler): Handler {
    if h.state == Uninitialized then h
    else h.(state := Uninitialized, eventFd := h.eventFd + 1)
  }

  function Initialized(h: Handler): Handler {
    if h.state == Uninitialized then h.(state := Idle, eventFd := 0) else h
  }

  /** The locked region at the top of the worker loop: a handler that is still up begins to wait. */
  function Begun(h: Handler): Handler {
    if h.state == Uninitialized then h else h.(state := Waiting)
  }

  class InteractionHandler {
    const tunables: Tunables
    var mState: State
    var mEventFd: nat
    var mDurationMs: int
    var mLastTimespec: Timespec
    var hintCalls: seq<HintCall>

    ghost function View(): Handler
      reads this
    {
      Handler(mState, mEventFd, mDurationMs, mLastTimespec, hintCalls)
    }

    constructor (t: Tunables, unset: Timespec)
      ensures tunables == t
      ensures View() == Handler(Uninitialized, 0, 0, unset, [])
    {
      tunables, mState, mEventFd := t, Uninitialized, 0;
      mDurationMs, mLastTimespec, hintCalls := 0, unset, [];
    }

    /** `fdOpened` and `eventFdCreated` are the outcomes of the two system calls. */
    method Init(fdOpened: bool, eventFdCreated: bool) returns (ok: bool)
      modifies this
      ensures ok == (old(mState) != Uninitialized || (fdOpened && eventFdCreated))
      ensures View() == if ok then Initialized(old(View())) else old(View())
    {
      if mState != Uninitialized {
        return true;
      }
      if !fdOpened {
        return false;
      }
      if !eventFdCreated {
        return false;
      }
      mEventFd := 0;
      mState := Idle;
      return true;
    }

    method AbortWaitLocked()
      modifies this`mEventFd
      ensures mEventFd == old(mEventFd) + 1
    {
      mEventFd := mEventFd + 1;
    }

    /** The locked region of `Exit`; notifying and joining the worker happen after it. */
    method ExitLocked()
      modifies this
      ensures View() == Exited(old(View()))
    {
      if mState == Uninitialized {
        return;
      }
      AbortWaitLocked();
      mState := Uninitialized;
    }

    method Acquire(duration: int, now: Timespec)
      modifies this
      ensures View() == Acquired(old(View()), tunables, duration, now)
    {
      var inputDuration := (duration + tunables.offsetMs) % UINT32_RANGE;
      var finalDuration;
      if inputDuration > tunables.maxMs {
        finalDuration := tunables.maxMs;
      } else if inputDuration > tunables.minMs {
        finalDuration := inputDuration;
      } else {
        finalDuration := tunables.minMs;
      }

      if !tunables.idleSupport || mState == Uninitialized {
        hintCalls := hintCalls + [Timed(finalDuration)];
        return;
      }

      if mState != Idle && finalDuration <= mDurationMs {
        var elapsedTime := CalcTimespecDiffMs(mLastTimespec, now);
        if elapsedTime <= mDurationMs - finalDuration {
          return;
        }
      }
      mLastTimespec := now;
      mDurationMs := finalDuration;

      if mState == Waiting {
        AbortWaitLocked();
      } else if mState == Idle {
        hintCalls := hintCalls + [Lock];
      }
      mState := Interaction;
    }

    method Release()
      modifies this
      ensures View() == Released(old(View()))
    {
      if mState == Waiting {
        hintCalls := hintCalls + [Rel];
        mState := Idle;
      } else {
        mEventFd := 0;
      }
    }

    /**
     The locked region at the top of the worker loop, entered only when the condition
     variable's predicate holds. `done` tells the worker to return.
     */
    method BeginWait() returns (done: bool)
      requires mState != Idle
      modifies this
      ensures done == (old(mState) == Uninitialized)
      ensures View() == Begun(old(View()))
    {
      if mState == Uninitialized {
        return true;
      }
      mState := Waiting;
      return false;
    }
  }
}
