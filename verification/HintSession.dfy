/**
 Power hint sessions and their manager as objects: each call of the session's interface, with
 what it does to the session's minimum, to the manager's thread index and to the kernel.
 */
module HintSession {
  import opened CppInt
  import opened HintTimers
  import opened Pid
  import opened SessionIndex
  import opened TrueMin

  const UCLAMP_MAX: int := 1024
  const AID_APP_START: int := 10000

  datatype Status = Ok | IllegalState | IllegalArgument

  /** Settings of the active ADPF profile. */
  datatype Adpf = Adpf(levels: Levels, pid: Pid.Config, staleTimeFactor: real)

  function Uclamp(v: int): int {
    Min(Max(0, v), UCLAMP_MAX)
  }

  /** The minima that count for these sessions: of the active ones that have not gone stale. */
  ghost function Counting(sessions: set<PowerHintSession>, stale: set<PowerHintSession>): set<int>
    reads set s | s in sessions :: s.mDescriptor
  {
    set s | s in sessions && s.mDescriptor.isActive && s !in stale :: s.mDescriptor.currentMin
  }

  /** What the kernel must be told for a thread of these sessions when one asks for `val`. */
  ghost function Wanted(sessions: set<PowerHintSession>, val: int, stale: set<PowerHintSession>): int
    reads set s | s in sessions :: s.mDescriptor
  {
    Uclamp(Max(val, Peak(Counting(sessions, stale))))
  }

  /**
   What the kernel is told lies between 0 and 1024 and is the largest of what the caller asks for
   and what active sessions that are not stale ask for, as far as the range allows. Other sessions
   do not enter into it.
   */
  lemma WantedIsClampedMaximum(sessions: set<PowerHintSession>, val: int, stale: set<PowerHintSession>)
    ensures var w := Wanted(sessions, val, stale);
            && 0 <= w <= 1024
            && (w < 1024 ==> val <= w)
            && (w < 1024 ==> forall s :: s in sessions && s.mDescriptor.isActive && s !in stale ==>
                                           s.mDescriptor.currentMin <= w)
            && (w > 0 ==> val >= w || exists s :: s in sessions && s.mDescriptor.isActive && s !in stale
                                                  && s.mDescriptor.currentMin >= w)
  {
    var mins := Counting(sessions, stale);
    assert forall s :: s in sessions && s.mDescriptor.isActive && s !in stale ==> s.mDescriptor.currentMin in mins;
    if Peak(mins) > 0 {
      assert Peak(mins) in mins;
    }
  }

  class PowerSessionManager {
    var mSessions: set<PowerHintSession>
    var index: Index<PowerHintSession>  // mTidSessionListMap and the profile calls made for it
    var uclamp: map<int, int>           // what the kernel was last told, per thread
    var mActive: bool

    constructor ()
      ensures mSessions == {} && index == Index(map[], []) && uclamp == map[] && !mActive
    {
      mSessions, index, uclamp, mActive := {}, Index(map[], []), map[], false;
    }

    method AddThreadsFromPowerSession(session: PowerHintSession)
      modifies this`index
      ensures index == AddThreads(old(index), session, session.mDescriptor.threadIds)
    {
      ghost var was := index;
      var tids := session.mDescriptor.threadIds;
      for n := 0 to |tids|
        invariant index == AddThreads(was, session, tids[..n])
      {
        var t := tids[n];
        assert tids[..n + 1][..n] == tids[..n];
        var calls := index.profiles;
        if Under(index.sessions, t) == {} {
          calls := calls + [ResetUclampGrp(t)];
        }
        index := Index(index.sessions[t := Under(index.sessions, t) + {session}], calls);
      }
      assert tids[..|tids|] == tids;
    }

    method RemoveThreadsFromPowerSession(session: PowerHintSession)
      modifies this`index
      ensures index == RemoveThreads(old(index), session, session.mDescriptor.threadIds)
    {
      ghost var was := index;
      var tids := session.mDescriptor.threadIds;
      for n := 0 to |tids|
        invariant index == RemoveThreads(was, session, tids[..n])
      {
        var t := tids[n];
        assert tids[..n + 1][..n] == tids[..n];
        var before := Under(index.sessions, t);
        var calls := index.profiles;
        if session in before && before - {session} == {} {
          assert before == {session};
          calls := calls + [NoResetUclampGrp(t)];
        }
        index := Index(index.sessions[t := before - {session}], calls);
      }
      assert tids[..|tids|] == tids;
    }

    method AddPowerSession(session: PowerHintSession)
      modifies this`mSessions, this`index
      ensures mSessions == old(mSessions) + {session}
      ensures index == AddThreads(old(index), session, session.mDescriptor.threadIds)
    {
      mSessions := mSessions + {session};
      AddThreadsFromPowerSession(session);
    }

    method RemovePowerSession(session: PowerHintSession)
      modifies this`mSessions, this`index
      ensures mSessions == old(mSessions) - {session}
      ensures index == RemoveThreads(old(index), session, session.mDescriptor.threadIds)
    {
      mSessions := mSessions - {session};
      RemoveThreadsFromPowerSession(session);
    }

    /** The largest counting minimum, by a loop over the set. `stale` is who has timed out. */
    method TidMax(sessions: set<PowerHintSession>, stale: set<PowerHintSession>) returns (tidMax: int)
      ensures tidMax == Peak(Counting(sessions, stale))
    {
      tidMax := 0;
      var rest := sessions;
      while rest != {}
        invariant rest <= sessions
        invariant tidMax == Peak(Counting(sessions - rest, stale))
      {
        var s :| s in rest;
        ghost var done := sessions - rest;
        ghost var before := tidMax;
        rest := rest - {s};
        assert sessions - rest == done + {s};
        if s.mDescriptor.isActive && s !in stale {
          tidMax := Max(tidMax, s.mDescriptor.currentMin);
          assert Counting(done + {s}, stale) == Counting(done, stale) + {s.mDescriptor.currentMin};
        } else {
          assert Counting(done + {s}, stale) == Counting(done, stale);
        }
        PeakIsUnique(Counting(done + {s}, stale), tidMax);
      }
      assert sessions - rest == sessions;
    }

    ghost predicate Shown(t: int, val: int, stale: set<PowerHintSession>)
      reads this, set s | s in Under(index.sessions, t) :: s.mDescriptor
    {
      t in uclamp && uclamp[t] == Wanted(Under(index.sessions, t), val, stale)
    }

    /** The kernel holds, for each of these threads, the clamped maximum over its sessions. */
    ghost predicate Shows(tids: seq<int>, val: int, stale: set<PowerHintSession>)
      reads this, set t, s | t in tids && s in Under(index.sessions, t) :: s.mDescriptor
    {
      forall t :: t in tids ==> Shown(t, val, stale)
    }

    /** No thread but these has been told anything. */
    twostate predicate OnlyTold(tids: seq<int>)
      reads this`uclamp
    {
      forall t :: t !in tids ==>
        (t in uclamp <==> t in old(uclamp)) && (t in uclamp ==> uclamp[t] == old(uclamp[t]))
    }

    /** One thread of `SetUclampMin`: the kernel is told the clamped maximum over its sessions. */
    method SetThreadUclampMin(t: int, val: int, stale: set<PowerHintSession>)
      modifies this`uclamp
      ensures uclamp == old(uclamp)[t := Wanted(Under(index.sessions, t), val, stale)]
    {
      var tidMax := TidMax(Under(index.sessions, t), stale);
      uclamp := uclamp[t := Uclamp(Max(val, tidMax))];
    }

    method SetUclampMin(session: PowerHintSession, val: int, stale: set<PowerHintSession>)
      modifies this`uclamp
      ensures Shows(session.mDescriptor.threadIds, val, stale)
      ensures OnlyTold(session.mDescriptor.threadIds)
    {
      var tids := session.mDescriptor.threadIds;
      for n := 0 to |tids|
        invariant forall k :: 0 <= k < n ==> Shown(tids[k], val, stale)
        invariant OnlyTold(tids)
      {
        SetThreadUclampMin(tids[n], val, stale);
      }
    }

    /** Some application session is active and not stale. */
    ghost predicate AnyActive(stale: set<PowerHintSession>)
      reads this`mSessions, mSessions, set s | s in mSessions :: s.mDescriptor
    {
      exists s :: s in mSessions && s.mDescriptor.isActive && s !in stale && s.mDescriptor.uid >= AID_APP_START
    }

    /** Reports the new value when it changed, and nothing otherwise. */
    method IsAnyAppSessionActive(stale: set<PowerHintSession>) returns (changed: bool)
      modifies this`mActive
      ensures mActive == AnyActive(stale)
      ensures changed <==> mActive != old(mActive)
    {
      var active := false;
      var rest := mSessions;
      while rest != {} && !active
        invariant rest <= mSessions
        invariant active ==> AnyActive(stale)
        invariant !active ==> forall s :: s in mSessions - rest ==>
                    !(s.mDescriptor.isActive && s !in stale && s.mDescriptor.uid >= AID_APP_START)
        decreases |rest|
      {
        var s :| s in rest;
        rest := rest - {s};
        if s.mDescriptor.isActive && s !in stale && s.mDescriptor.uid >= AID_APP_START {
          active := true;
        }
      }
      if active == mActive {
        return false;
      }
      mActive := active;
      return true;
    }
  }

  class PowerHintSession {
    const mDescriptor: AppHintDesc
    const manager: PowerSessionManager
    var mSessionClosed: bool
    var mNextUclampMin: Saved
    var timers: seq<TimerCall>
    var timersDead: bool

    ghost function MinView(): Boost
      reads this, mDescriptor
    {
      Boost(mDescriptor.currentMin, mNextUclampMin)
    }

    /** What the index coherence is about. */
    ghost function Life(): SessionIndex.Session
      reads this, mDescriptor
    {
      SessionIndex.Session(mDescriptor.threadIds, mDescriptor.isActive, mSessionClosed)
    }

    /** All timer calls once this operation has left the session as it is. */
    ghost function TimedBy(op: TrueMin.Op, before: seq<TimerCall>, c: Adpf): seq<TimerCall>
      reads mDescriptor
    {
      Timed(before, op, mDescriptor.currentMin, mDescriptor.duration, c.staleTimeFactor)
    }

    /** The descriptor belongs to this session alone. */
    ghost predicate OwnsDescriptor()
      reads this, manager
    {
      forall t, s :: s in Under(manager.index.sessions, t) && s != this ==> s.mDescriptor != mDescriptor
    }

    /** Nothing about the session or the manager's index has changed. */
    twostate predicate Rejected()
      reads this, mDescriptor, manager
    {
      && unchanged(this) && unchanged(mDescriptor) && unchanged(manager)
    }

    constructor (manager: PowerSessionManager, uid: int, threadIds: seq<int>, durationNanos: int, c: Adpf,
                 stale: set<PowerHintSession>)
      modifies manager
      ensures this.manager == manager && fresh(mDescriptor)
      ensures Life() == SessionIndex.Session(threadIds, true, false)
      ensures mDescriptor.uid == uid && mDescriptor.duration == durationNanos
      ensures mDescriptor.integralError == 0 && mDescriptor.previousError == 0
      ensures MinView() == Constructed(c.levels)
      ensures !timersDead && timers == TimedBy(TrueMin.SendHint(LoadReset), [], c)
      ensures manager.mSessions == old(manager.mSessions) + {this}
      ensures manager.index == AddThreads(old(manager.index), this, threadIds)
      ensures manager.Shows(threadIds, mDescriptor.currentMin, stale) && manager.OnlyTold(threadIds)
    {
      mDescriptor := new AppHintDesc(uid, threadIds, durationNanos);
      this.manager := manager;
      mSessionClosed, mNextUclampMin, timers, timersDead := false, Nothing, [], false;
      new;
      manager.AddPowerSession(this);
      var status := SendHint(LoadReset, c, stale);
    }

    method DisableTemporaryBoost() returns (wasBoosted: bool)
      modifies this`mNextUclampMin, mDescriptor`currentMin
      ensures wasBoosted == old(mNextUclampMin).Just?
      ensures MinView() == Restored(old(MinView()))
    {
      if mNextUclampMin.Just? {
        mDescriptor.currentMin := mNextUclampMin.v;
        mNextUclampMin := Nothing;
        return true;
      }
      return false;
    }

    method SetSessionUclampMin(min: int, resetStale: bool, c: Adpf, stale: set<PowerHintSession>)
      modifies this`timers, mDescriptor`currentMin, manager`uclamp
      ensures mDescriptor.currentMin == min
      ensures timers == old(timers) + if resetStale then StaleCalls(min, mDescriptor.duration, c.staleTimeFactor)
                                      else []
      ensures manager.Shows(mDescriptor.threadIds, min, stale) && manager.OnlyTold(mDescriptor.threadIds)
    {
      mDescriptor.currentMin := min;
      if min != 0 && resetStale {
        timers := timers + [StaleTimer(StaleDelay(mDescriptor.duration, c.staleTimeFactor))];
      }
      manager.SetUclampMin(this, min, stale);
    }

    method SetStale(stale: set<PowerHintSession>)
      modifies this`mNextUclampMin, mDescriptor`currentMin, manager`uclamp
      ensures MinView() == Restored(old(MinView()))
      ensures manager.Shows(mDescriptor.threadIds, 0, stale) && manager.OnlyTold(mDescriptor.threadIds)
    {
      var boosted := DisableTemporaryBoost();
      manager.SetUclampMin(this, 0, stale);
    }

    /** The boost timer's `onTimeout`. */
    method OnBoostTimeout(c: Adpf, stale: set<PowerHintSession>)
      modifies this`timers, this`mNextUclampMin, mDescriptor`currentMin, manager`uclamp
      ensures MinView() == Restored(old(MinView())) && timers == old(timers)
      ensures old(mNextUclampMin).Just? ==> manager.Shows(mDescriptor.threadIds, mDescriptor.currentMin, stale)
      ensures manager.OnlyTold(if old(mNextUclampMin).Just? then mDescriptor.threadIds else [])
    {
      var boosted := DisableTemporaryBoost();
      if boosted {
        SetSessionUclampMin(mDescriptor.currentMin, false, c, stale);
      }
    }

    method Pause(stale: set<PowerHintSession>) returns (status: Status)
      requires OwnsDescriptor()
      modifies this`mNextUclampMin, mDescriptor`isActive, mDescriptor`currentMin, manager`uclamp, manager`index
      ensures status == if old(mSessionClosed || !mDescriptor.isActive) then IllegalState else Ok
      ensures status != Ok ==> Rejected()
      ensures status == Ok ==>
                && Life() == old(Life()).(active := false)
                && MinView() == Restored(old(MinView()))
                && manager.index == RemoveThreads(old(manager.index), this, mDescriptor.threadIds)
                && manager.Shows(mDescriptor.threadIds, 0, stale)
                && manager.OnlyTold(mDescriptor.threadIds)
    {
      if mSessionClosed {
        return IllegalState;
      }
      if !mDescriptor.isActive {
        return IllegalState;
      }
      mDescriptor.isActive := false;
      SetStale(stale);
      ghost var indexed := manager.index;
      assert manager.Shows(mDescriptor.threadIds, 0, stale);
      label Told:
      manager.RemoveThreadsFromPowerSession(this);
      RemoveThreadsUnder(indexed, this, mDescriptor.threadIds);
      forall t | t in mDescriptor.threadIds
        ensures manager.Shown(t, 0, stale)
      {
        assert old@Told(manager.Shown(t, 0, stale));
        assert Counting(Under(manager.index.sessions, t), stale)
            == old@Told(Counting(Under(manager.index.sessions, t), stale));
      }
      return Ok;
    }

    method Resume(c: Adpf, stale: set<PowerHintSession>) returns (status: Status)
      modifies this`timers, mDescriptor`isActive, mDescriptor`currentMin, manager`uclamp, manager`index
      ensures status == if old(mSessionClosed || mDescriptor.isActive) then IllegalState else Ok
      ensures status != Ok ==> Rejected()
      ensures status == Ok ==>
                && Life() == old(Life()).(active := true)
                && MinView() == old(MinView())
                && timers == TimedBy(TrueMin.Resume, old(timers), c)
                && manager.index == AddThreads(old(manager.index), this, mDescriptor.threadIds)
                && manager.Shows(mDescriptor.threadIds, mDescriptor.currentMin, stale)
                && manager.OnlyTold(mDescriptor.threadIds)
    {
      if mSessionClosed {
        return IllegalState;
      }
      if mDescriptor.isActive {
        return IllegalState;
      }
      mDescriptor.isActive := true;
      manager.AddThreadsFromPowerSession(this);
      SetSessionUclampMin(mDescriptor.currentMin, true, c, stale);
      return Ok;
    }

    method Close(c: Adpf, stale: set<PowerHintSession>) returns (status: Status)
      requires OwnsDescriptor()
      modifies this`mSessionClosed, this`timersDead, this`timers, mDescriptor`isActive, mDescriptor`currentMin
      modifies manager`mSessions, manager`index, manager`uclamp
      ensures status == if old(mSessionClosed) then IllegalState else Ok
      ensures status != Ok ==> Rejected()
      ensures status == Ok ==>
                && Life() == old(Life()).(active := false, closed := true)
                && mDescriptor.currentMin == 0 && timersDead && timers == old(timers)
                && manager.mSessions == old(manager.mSessions) - {this}
                && manager.index == RemoveThreads(old(manager.index), this, mDescriptor.threadIds)
                && manager.Shows(mDescriptor.threadIds, 0, stale)
                && manager.OnlyTold(mDescriptor.threadIds)
    {
      if mSessionClosed {
        return IllegalState;
      }
      mSessionClosed := true;
      ghost var indexed := manager.index;
      manager.RemovePowerSession(this);
      RemoveThreadsUnder(indexed, this, mDescriptor.threadIds);
      timersDead := true;
      SetSessionUclampMin(0, true, c, stale);
      label Told:
      mDescriptor.isActive := false;
      forall t | t in mDescriptor.threadIds
        ensures manager.Shown(t, 0, stale)
      {
        assert old@Told(manager.Shown(t, 0, stale));
        assert this !in Under(manager.index.sessions, t);
      }
      return Ok;
    }

    method SendHint(hint: Hint, c: Adpf, stale: set<PowerHintSession>) returns (status: Status)
      modifies this`timers, this`mNextUclampMin, mDescriptor`currentMin, manager`uclamp
      ensures status == if old(mSessionClosed) then IllegalState
                        else if hint == Invalid then IllegalArgument else Ok
      ensures status == IllegalState ==> Rejected()
      ensures status != IllegalState ==> MinView() == Hinted(old(MinView()), hint, c.levels)
      ensures status == Ok ==> manager.Shows(mDescriptor.threadIds, mDescriptor.currentMin, stale)
      ensures manager.OnlyTold(if status == Ok then mDescriptor.threadIds else [])
      ensures status != IllegalState ==> timers == TimedBy(TrueMin.SendHint(hint), old(timers), c)
    {
      if mSessionClosed {
        return IllegalState;
      }
      var boosted := DisableTemporaryBoost();
      match hint {
        case LoadUp =>
          mNextUclampMin := Just(mDescriptor.currentMin);
          timers := timers + [BoostTimer(mDescriptor.duration * 2)];
          SetSessionUclampMin(c.levels.high, true, c, stale);
        case LoadDown =>
          SetSessionUclampMin(c.levels.low, true, c, stale);
        case LoadReset =>
          mNextUclampMin := Just(AsInt32(Max(c.levels.init, AsUint32(mDescriptor.currentMin))));
          timers := timers + [BoostTimer(ResetDelay(mDescriptor.duration, c.staleTimeFactor))];
          SetSessionUclampMin(c.levels.high, true, c, stale);
        case LoadResume =>
          SetSessionUclampMin(mDescriptor.currentMin, true, c, stale);
        case Invalid =>
          return IllegalArgument;
      }
      return Ok;
    }

    /** Takes the session out of the index, changes its list, and puts it back. */
    method Relist(threadIds: seq<int>)
      modifies mDescriptor`threadIds, manager`index
      ensures mDescriptor.threadIds == NewThreads(old(mDescriptor.threadIds), threadIds)
      ensures manager.index == AddThreads(RemoveThreads(old(manager.index), this, old(mDescriptor.threadIds)),
                                          this, mDescriptor.threadIds)
    {
      manager.RemoveThreadsFromPowerSession(this);
      mDescriptor.threadIds := Resized(mDescriptor.threadIds, |threadIds|);
      mDescriptor.threadIds := mDescriptor.threadIds + threadIds;
      manager.AddThreadsFromPowerSession(this);
    }

    method SetThreads(threadIds: seq<int>, c: Adpf, stale: set<PowerHintSession>) returns (status: Status)
      modifies this`timers, mDescriptor`threadIds, mDescriptor`currentMin, manager`uclamp, manager`index
      ensures status == if old(mSessionClosed) then IllegalState
                        else if threadIds == [] then IllegalArgument else Ok
      ensures status != Ok ==> Rejected()
      ensures status == Ok ==>
                && Life() == old(Life()).(tids := NewThreads(old(mDescriptor.threadIds), threadIds))
                && MinView() == TrueMin.Step(old(MinView()), TrueMin.SetThreads, c.levels)
                && timers == TimedBy(TrueMin.SetThreads, old(timers), c)
                && manager.index == AddThreads(RemoveThreads(old(manager.index), this, old(mDescriptor.threadIds)),
                                               this, mDescriptor.threadIds)
                && manager.Shows(mDescriptor.threadIds, c.levels.init, stale)
                && manager.OnlyTold(mDescriptor.threadIds)
    {
      if mSessionClosed {
        return IllegalState;
      }
      if threadIds == [] {
        return IllegalArgument;
      }
      hide AddThreads, RemoveThreads, NewThreads, StaleCalls, Wanted, Counting;
      Relist(threadIds);
      SetSessionUclampMin(c.levels.init, true, c, stale);
      return Ok;
    }

    /** The factor is the profile's; the product is cut to an integer. */
    method UpdateTargetWorkDuration(targetDurationNanos: int, targetTimeFactor: real) returns (status: Status)
      modifies mDescriptor`duration
      ensures status == if mSessionClosed then IllegalState
                        else if targetDurationNanos <= 0 then IllegalArgument else Ok
      ensures status != Ok ==> Rejected()
      ensures status == Ok ==> Truncates(mDescriptor.duration, targetDurationNanos as real * targetTimeFactor)
    {
      if mSessionClosed {
        return IllegalState;
      }
      if targetDurationNanos <= 0 {
        return IllegalArgument;
      }
      mDescriptor.duration := Trunc(targetDurationNanos as real * targetTimeFactor);
      TruncatesIsUnique(mDescriptor.duration, targetDurationNanos as real * targetTimeFactor);
      return Ok;
    }

    method ReportActualWorkDuration(actualDurations: seq<int>, c: Adpf, stale: set<PowerHintSession>,
                                    undefinedCast: int)
      returns (status: Status)
      modifies this`timers, this`mNextUclampMin, mDescriptor`currentMin
      modifies mDescriptor`integralError, mDescriptor`previousError, manager`uclamp
      ensures status == if old(mSessionClosed) || old(mDescriptor.duration) == 0 then IllegalState
                        else if actualDurations == [] then IllegalArgument
                        else if !old(mDescriptor.isActive) then IllegalState else Ok
      ensures status != Ok ==> Rejected()
      ensures status == Ok ==>
                var dt := NsTo100Us(mDescriptor.duration);
                var acc := Batch(c.pid, old(mDescriptor.integralError), old(mDescriptor.previousError),
                                 Errors(actualDurations, mDescriptor.duration), dt);
                var output := Output(c.pid, acc, |actualDurations|, dt, undefinedCast);
                && MinView() == Reported(old(MinView()), output, c.levels)
                && timers == TimedBy(TrueMin.Report(output), old(timers), c)
                && (if c.levels.pidOn
                    then mDescriptor.integralError == acc.integral && mDescriptor.previousError == acc.previous
                    else mDescriptor.integralError == old(mDescriptor.integralError)
                         && mDescriptor.previousError == old(mDescriptor.previousError))
                && manager.Shows(mDescriptor.threadIds, mDescriptor.currentMin, stale)
                && manager.OnlyTold(mDescriptor.threadIds)
    {
      if mSessionClosed {
        return IllegalState;
      }
      if mDescriptor.duration == 0 {
        return IllegalState;
      }
      if actualDurations == [] {
        return IllegalArgument;
      }
      if !mDescriptor.isActive {
        return IllegalState;
      }
      var boosted := DisableTemporaryBoost();
      if !c.levels.pidOn {
        SetSessionUclampMin(c.levels.high, true, c, stale);
        return Ok;
      }
      var output := mDescriptor.ConvertWorkDurationToBoostByPid(c.pid, actualDurations, undefinedCast);
      var nextMin := Min(c.levels.high, mDescriptor.currentMin + output);
      nextMin := Max(c.levels.low, nextMin);
      SetSessionUclampMin(nextMin, true, c, stale);
      return Ok;
    }
  }
}
