/**
 The re-arming session timer: a caller that moves the deadline, the looper thread that handles
 the timer's messages, and the thread that closes the session, interleaved. Each region between
 lock operations, and each read of the clock or of the atomic deadline, is a step of its own.
 */
module SessionTimer {

  /** One run of `onTimeout`: the deadline it had read, which update set it, and the time read. */
  datatype Firing = Firing(deadline: int, update: nat, clock: int)

  datatype Timer = Timer(
    timeout: int,         // mTimeout
    update: nat,          // how many times it has been stored
    dead: bool,           // mIsSessionDead
    queue: seq<int>,      // due times of this handler's messages in the looper
    fired: seq<Firing>)

  function Stored(t: Timer, deadline: int): Timer {
    t.(timeout := deadline, update := t.update + 1)
  }

  /** `removeMessages` followed by `sendMessageDelayed`, under the message lock. */
  function Requeued(t: Timer, due: int): Timer {
    t.(queue := [due])
  }

  function Acted(t: Timer, deadline: int, update: nat, clock: int, now: int): Timer {
    if deadline - clock > 0 then Requeued(t, now + (deadline - clock))
    else t.(fired := t.fired + [Firing(deadline, update, clock)])
  }

  function Killed(t: Timer): Timer {
    t.(dead := true, queue := [])
  }

  class SessionTimerHandler {
    var mTimeout: int
    var updates: nat
    var mIsSessionDead: bool
    var messages: seq<int>
    var firings: seq<Firing>

    ghost function View(): Timer
      reads this
    {
      Timer(mTimeout, updates, mIsSessionDead, messages, firings)
    }

    constructor (unset: int)
      ensures View() == Timer(unset, 0, false, [], [])
    {
      mTimeout, updates, mIsSessionDead, messages, firings := unset, 0, false, [], [];
    }

    /** The second step of `updateTimer`, with the clock it read in the first. */
    method StoreTimeout(clock: int, delay: int)
      modifies this
      ensures View() == Stored(old(View()), clock + delay)
    {
      mTimeout := clock + delay;
      updates := updates + 1;
    }

    method RemoveMessages()
      modifies this`messages
      ensures messages == []
    {
      messages := [];
    }

    method SendMessageDelayed(now: int, delay: int)
      modifies this`messages
      ensures messages == old(messages) + [now + delay]
    {
      messages := messages + [now + delay];
    }

    /** The locked region of `updateTimer`, and of `handleMessage` when it is too early. */
    method ResendLocked(now: int, delay: int)
      modifies this`messages
      ensures View() == Requeued(old(View()), now + delay)
    {
      RemoveMessages();
      SendMessageDelayed(now, delay);
    }

    /** The end of `handleMessage`, with the deadline and the clock it read before. */
    method Act(deadline: int, update: nat, clock: int, now: int)
      modifies this
      ensures View() == Acted(old(View()), deadline, update, clock, now)
    {
      var next := deadline - clock;
      if next > 0 {
        ResendLocked(now, next);
      } else {
        firings := firings + [Firing(deadline, update, clock)];
      }
    }

    method SetSessionDead()
      modifies this
      ensures View() == Killed(old(View()))
    {
      mIsSessionDead := true;
      RemoveMessages();
    }
  }

  // --- The threads -------------------------------------------------------------------------------

  /** The caller of `updateTimer`: idle, past the clock read, or past the store of the deadline. */
  datatype Caller = Idle | MustStore(clock: int, delay: int) | MustSend(delay: int)

  /** The looper: from `Checked` on it holds the closed lock. */
  datatype Looper =
    | Polling
    | Entered
    | Checked
    | Clocked(clock: int)
    | Decided(clock: int, deadline: int, update: nat)

  datatype System = System(t: Timer, caller: Caller, looper: Looper, now: int)

  datatype Action =
    | Tick(now: int)
    | Update(delay: int)
    | Store
    | Send
    | Dispatch
    | CheckDead
    | ReadClock
    | ReadTimeout
    | Finish
    | SetDead

  predicate HoldsClosedLock(l: Looper) {
    l.Checked? || l.Clocked? || l.Decided?
  }

  /** One step; an action that is not possible leaves everything unchanged. */
  function Next(s: System, a: Action): System {
    match a
    case Tick(now) => if s.now <= now then s.(now := now) else s
    case Update(delay) =>
      if s.caller.Idle? then s.(caller := MustStore(s.now, delay)) else s
    case Store =>
      if s.caller.MustStore?
      then s.(t := Stored(s.t, s.caller.clock + s.caller.delay), caller := MustSend(s.caller.delay))
      else s
    case Send =>
      if s.caller.MustSend? then s.(t := Requeued(s.t, s.now + s.caller.delay), caller := Idle) else s
    case Dispatch =>
      if s.looper.Polling? && s.t.queue != [] && s.t.queue[0] <= s.now
      then s.(t := s.t.(queue := s.t.queue[1..]), looper := Entered)
      else s
    case CheckDead =>
      if s.looper.Entered? then s.(looper := if s.t.dead then Polling else Checked) else s
    case ReadClock =>
      if s.looper.Checked? then s.(looper := Clocked(s.now)) else s
    case ReadTimeout =>
      if s.looper.Clocked? then s.(looper := Decided(s.looper.clock, s.t.timeout, s.t.update)) else s
    case Finish =>
      if s.looper.Decided?
      then s.(t := Acted(s.t, s.looper.deadline, s.looper.update, s.looper.clock, s.now), looper := Polling)
      else s
    case SetDead =>
      if HoldsClosedLock(s.looper) then s else s.(t := Killed(s.t))
  }

  function Run(s: System, acts: seq<Action>): System
    decreases |acts|
  {
    if acts == [] then s else Run(Next(s, acts[0]), acts[1..])
  }

  function Start(unset: int, now: int): System {
    System(Timer(unset, 0, false, [], []), Idle, Polling, now)
  }

  /** The newest update whose deadline some `onTimeout` had read; 0 when none ran. */
  function Served(fired: seq<Firing>): nat {
    if fired == [] then 0
    else if fired[|fired| - 1].update > Served(fired[..|fired| - 1]) then fired[|fired| - 1].update
    else Served(fired[..|fired| - 1])
  }

  /** The current deadline has not been acted upon. */
  predicate Pending(t: Timer) {
    !t.dead && Served(t.fired) < t.update
  }

  /** The looper is at a point from which it will look at the current deadline or queue again. */
  predicate WillLook(s: System) {
    match s.looper
    case Polling => false
    case Decided(clock, deadline, update) => deadline > clock || update == s.t.update
    case _ => true
  }

  ghost predicate Inv(s: System) {
    && |s.t.queue| <= 1
    && Served(s.t.fired) <= s.t.update
    && (Pending(s.t) ==> s.t.queue != [] || s.caller.MustSend? || WillLook(s))
    && (HoldsClosedLock(s.looper) ==> !s.t.dead)
    && (s.looper.Clocked? || s.looper.Decided? ==> s.looper.clock <= s.now)
    && (s.looper.Decided? ==> s.looper.update <= s.t.update)
    && (forall f :: f in s.t.fired ==> f.deadline <= f.clock <= s.now && f.update <= s.t.update)
  }

  lemma ServedOneMore(fired: seq<Firing>, f: Firing)
    ensures Served(fired + [f]) == if f.update > Served(fired) then f.update else Served(fired)
  {
    assert (fired + [f])[..|fired|] == fired;
  }

  lemma NextKeepsInv(s: System, a: Action)
    requires Inv(s)
    ensures Inv(Next(s, a))
  {
    if a.Finish? {
      FinishKeepsInv(s);
    } else {
      OtherStepKeepsInv(s, a);
    }
  }

  lemma OtherStepKeepsInv(s: System, a: Action)
    requires Inv(s) && !a.Finish?
    ensures Inv(Next(s, a))
  {
    hide Served;
    assert Next(s, a).t.fired == s.t.fired && Next(s, a).now >= s.now && Next(s, a).t.update >= s.t.update;
  }

  lemma FinishKeepsInv(s: System)
    requires Inv(s)
    ensures Inv(Next(s, Finish))
  {
    if s.looper.Decided? {
      hide Served;
      if s.looper.deadline - s.looper.clock <= 0 {
        FiringKeepsInv(s);
      }
    }
  }

  lemma FiringKeepsInv(s: System)
    requires Inv(s) && s.looper.Decided? && s.looper.deadline - s.looper.clock <= 0
    ensures Inv(Next(s, Finish))
  {
    hide Served;
    var f := Firing(s.looper.deadline, s.looper.update, s.looper.clock);
    ServedOneMore(s.t.fired, f);
    assert Next(s, Finish) == s.(t := s.t.(fired := s.t.fired + [f]), looper := Polling);
    assert forall g :: g in s.t.fired + [f] <==> g in s.t.fired || g == f;
  }

  lemma {:induction false} RunKeepsInv(s: System, acts: seq<Action>)
    requires Inv(s)
    ensures Inv(Run(s, acts))
    decreases |acts|
  {
    if acts != [] {
      NextKeepsInv(s, acts[0]);
      RunKeepsInv(Next(s, acts[0]), acts[1..]);
    }
  }

  /**
   In every interleaving at most one message is queued, no `onTimeout` ran before the deadline it
   read, and a deadline not acted upon is never lost: a message is queued, the caller is about to
   queue one, or the handler is about to look at the deadline.
   */
  lemma DeadlinesAreKept(unset: int, now: int, acts: seq<Action>)
    ensures var s := Run(Start(unset, now), acts);
            && |s.t.queue| <= 1
            && (forall f :: f in s.t.fired ==> f.deadline <= f.clock <= s.now)
            && (Pending(s.t) ==> s.t.queue != [] || s.caller.MustSend? || WillLook(s))
  {
    RunKeepsInv(Start(unset, now), acts);
  }

  /** Nothing fires once `setSessionDead` has run, not even after a later `updateTimer`. */
  lemma {:induction false} NothingFiresWhenDead(s: System, acts: seq<Action>)
    requires Inv(s) && s.t.dead
    ensures Run(s, acts).t.dead && Run(s, acts).t.fired == s.t.fired
    decreases |acts|
  {
    if acts != [] {
      NextKeepsInv(s, acts[0]);
      NothingFiresWhenDead(Next(s, acts[0]), acts[1..]);
    }
  }

  /** And nothing is left in the queue, provided nobody updates the timer any more. */
  lemma {:induction false} QueueStaysEmptyWhenDead(s: System, acts: seq<Action>)
    requires Inv(s) && s.t.dead && s.caller.Idle? && s.t.queue == []
    requires forall a :: a in acts ==> !a.Update?
    ensures Run(s, acts).t.queue == []
    decreases |acts|
  {
    if acts != [] {
      NextKeepsInv(s, acts[0]);
      QueueStaysEmptyWhenDead(Next(s, acts[0]), acts[1..]);
    }
  }

  /** A closing thread waits for a handler in mid-step, so killing takes effect between handlers. */
  lemma DeadTakesEffect(s: System)
    requires Inv(s)
    ensures Next(s, SetDead).t.dead <==> !HoldsClosedLock(s.looper)
    ensures Next(s, SetDead).t.dead ==> Next(s, SetDead).t.queue == []
  {
  }

  /** Once it has, the queue stays empty, provided nobody updates the timer any more. */
  lemma KillingEmptiesForGood(s: System, acts: seq<Action>)
    requires Inv(s) && s.caller.Idle? && !HoldsClosedLock(s.looper)
    requires forall a :: a in acts ==> !a.Update?
    ensures var s' := Run(Next(s, SetDead), acts); s'.t.dead && s'.t.queue == [] && s'.t.fired == s.t.fired
  {
    NextKeepsInv(s, SetDead);
    QueueStaysEmptyWhenDead(Next(s, SetDead), acts);
    NothingFiresWhenDead(Next(s, SetDead), acts);
  }

  /** Some `setSessionDead` of the run comes while no handler is past its dead check. */
  predicate GotIn(s: System, acts: seq<Action>)
    decreases |acts|
  {
    acts != [] && ((acts[0].SetDead? && !HoldsClosedLock(s.looper)) || GotIn(Next(s, acts[0]), acts[1..]))
  }

  /** Over any run a timer is dead exactly when some `setSessionDead` has got in. */
  lemma {:induction false} DeadExactlyOnceIn(s: System, acts: seq<Action>)
    requires Inv(s)
    ensures Run(s, acts).t.dead <==> s.t.dead || GotIn(s, acts)
    decreases |acts|
  {
    if acts != [] {
      NextKeepsInv(s, acts[0]);
      DeadExactlyOnceIn(Next(s, acts[0]), acts[1..]);
      DeadOnlyByClosing(s, acts[0]);
    }
  }

  lemma DeadOnlyByClosing(s: System, a: Action)
    requires Inv(s)
    ensures Next(s, a).t.dead <==> s.t.dead || (a.SetDead? && !HoldsClosedLock(s.looper))
  {
    if a.SetDead? {
      DeadTakesEffect(s);
    }
  }

  // --- Progress ----------------------------------------------------------------------------------

  /** The looper's steps from wherever it is to the end of the handling it is in. */
  function RestOfHandling(l: Looper): seq<Action> {
    match l
    case Polling => []
    case Entered => [CheckDead, ReadClock, ReadTimeout, Finish]
    case Checked => [ReadClock, ReadTimeout, Finish]
    case Clocked(_) => [ReadTimeout, Finish]
    case Decided(_, _, _) => [Finish]
  }

  /** A whole handling, once the clock has moved on to `at`. */
  function Handling(at: int): seq<Action> {
    [Tick(at), Dispatch] + RestOfHandling(Entered)
  }

  lemma {:induction false} RunOfSum(s: System, xs: seq<Action>, ys: seq<Action>)
    ensures Run(s, xs + ys) == Run(Run(s, xs), ys)
    decreases |xs|
  {
    if xs == [] {
      assert xs + ys == ys;
    } else {
      assert (xs + ys)[1..] == xs[1..] + ys;
      RunOfSum(Next(s, xs[0]), xs[1..], ys);
    }
  }

  /** The handling under way will find the current deadline passed. */
  predicate WillFire(s: System) {
    match s.looper
    case Polling => false
    case Clocked(clock) => s.t.timeout <= clock
    case Decided(clock, deadline, update) => deadline <= clock && update == s.t.update
    case _ => s.t.timeout <= s.now
  }

  function Rank(l: Looper): nat {
    match l
    case Polling => 0
    case Decided(_, _, _) => 1
    case Clocked(_) => 2
    case Checked => 3
    case Entered => 4
  }

  /** What the looper does next on its way to the end of the handling. */
  function LooperStep(l: Looper): Action
    requires !l.Polling?
  {
    match l
    case Entered => CheckDead
    case Checked => ReadClock
    case Clocked(_) => ReadTimeout
    case Decided(_, _, _) => Finish
  }

  lemma LooperSteps(s: System)
    requires Inv(s) && !s.t.dead && !s.looper.Polling?
    ensures var s1 := Next(s, LooperStep(s.looper));
            && Rank(s1.looper) == Rank(s.looper) - 1
            && !s1.t.dead && s1.caller == s.caller && s1.t.update == s.t.update
            && (WillFire(s) ==> if s.looper.Decided? then Served(s1.t.fired) == s.t.update else WillFire(s1))
  {
    if s.looper.Decided? {
      ServedOneMore(s.t.fired, Firing(s.looper.deadline, s.looper.update, s.looper.clock));
    }
  }

  lemma {:induction false} RestRuns(s: System)
    requires Inv(s) && !s.t.dead
    ensures var s' := Run(s, RestOfHandling(s.looper));
            && s'.looper.Polling? && !s'.t.dead && s'.caller == s.caller
            && (WillFire(s) ==> Served(s'.t.fired) == s.t.update)
    decreases Rank(s.looper)
  {
    if !s.looper.Polling? {
      var s1 := Next(s, LooperStep(s.looper));
      LooperSteps(s);
      NextKeepsInv(s, LooperStep(s.looper));
      RestUnfolds(s.looper, s1.looper);
      RestRuns(s1);
    }
  }

  lemma RestUnfolds(l: Looper, l1: Looper)
    requires !l.Polling? && Rank(l1) == Rank(l) - 1
    ensures RestOfHandling(l) == [LooperStep(l)] + RestOfHandling(l1)
    ensures RestOfHandling(l)[1..] == RestOfHandling(l1)
  {
  }

  lemma HandlingServes(s: System, at: int)
    requires Inv(s) && !s.t.dead && s.looper.Polling? && s.t.queue != []
    requires s.now <= at && s.t.queue[0] <= at && s.t.timeout <= at
    ensures Served(Run(s, Handling(at)).t.fired) == s.t.update
  {
    var s1 := Next(s, Tick(at));
    var s2 := Next(s1, Dispatch);
    NextKeepsInv(s, Tick(at));
    NextKeepsInv(s1, Dispatch);
    assert Handling(at)[1..] == [Dispatch] + RestOfHandling(Entered);
    assert ([Dispatch] + RestOfHandling(Entered))[1..] == RestOfHandling(Entered);
    RestRuns(s2);
  }

  /**
   A pending deadline needs nobody's help: from any reachable state with the caller idle, letting
   the looper finish what it is doing, time pass, and the looper handle one more message is enough
   for the deadline to be acted upon.
   */
  lemma {:induction false} PendingIsServed(s: System) returns (acts: seq<Action>)
    requires Inv(s) && Pending(s.t) && s.caller.Idle?
    ensures |acts| <= 10 && forall a :: a in acts ==> !a.Update? && !a.Store? && !a.Send? && !a.SetDead?
    ensures !Pending(Run(s, acts).t) && Run(s, acts).t.update == s.t.update
  {
    var first := RestOfHandling(s.looper);
    assert |first| <= 4 && forall a :: a in first ==> !a.Update? && !a.Store? && !a.Send? && !a.SetDead?;
    hide Next, RestOfHandling, Served, WillFire;
    var s1 := Run(s, first);
    RestRuns(s);
    RunKeepsInv(s, first);
    LooperKeepsUpdate(s, first);
    if Pending(s1.t) {
      var at := if s1.now < s1.t.timeout then s1.t.timeout else s1.now;
      at := if at < s1.t.queue[0] then s1.t.queue[0] else at;
      acts := first + Handling(at);
      HandlingIsQuiet(at);
      RunOfSum(s, first, Handling(at));
      HandlingServes(s1, at);
    } else {
      acts := first;
    }
    LooperKeepsUpdate(s, acts);
  }

  lemma HandlingIsQuiet(at: int)
    ensures |Handling(at)| == 6 && forall a :: a in Handling(at) ==> !a.Update? && !a.Store? && !a.Send? && !a.SetDead?
  {
  }

  lemma {:induction false} LooperKeepsUpdate(s: System, acts: seq<Action>)
    requires forall a :: a in acts ==> !a.Store?
    ensures Run(s, acts).t.update == s.t.update
    decreases |acts|
  {
    if acts != [] {
      LooperKeepsUpdate(Next(s, acts[0]), acts[1..]);
    }
  }

  // --- Every schedule ------------------------------------------------------------------------------

  predicate LooperAction(a: Action) {
    a.Dispatch? || a.CheckDead? || a.ReadClock? || a.ReadTimeout? || a.Finish?
  }

  /** Actions of other threads that change what is to be done. */
  predicate Interferes(a: Action) {
    a.Update? || a.Store? || a.Send? || a.SetDead?
  }

  /** The steps the looper really takes along a run. */
  function LooperTaken(s: System, acts: seq<Action>): nat
    decreases |acts|
  {
    if acts == [] then 0
    else (if LooperAction(acts[0]) && Next(s, acts[0]) != s then 1 else 0) + LooperTaken(Next(s, acts[0]), acts[1..])
  }

  /** How many it needs at most until the pending deadline, which has passed, is acted upon. */
  function ServeRank(s: System): nat {
    if WillFire(s) then Rank(s.looper) else Rank(s.looper) + 5
  }

  lemma ServeStep(s: System, a: Action)
    requires Inv(s) && Pending(s.t) && s.caller.Idle? && s.t.timeout <= s.now && !Interferes(a)
    ensures var s' := Next(s, a);
            && s'.caller.Idle? && s'.t.timeout <= s'.now && !s'.t.dead
            && (Pending(s'.t) ==>
                  ServeRank(s') + (if LooperAction(a) && s' != s then 1 else 0) <= ServeRank(s) <= 7)
  {
    if a.Finish? && s.looper.Decided? {
      ServedOneMore(s.t.fired, Firing(s.looper.deadline, s.looper.update, s.looper.clock));
    }
  }

  lemma ServeRankPositive(s: System)
    requires s.t.timeout <= s.now
    ensures 1 <= ServeRank(s) <= 7
  {
  }

  lemma {:induction false} ServedStaysServed(s: System, acts: seq<Action>)
    requires Inv(s) && !Pending(s.t) && s.caller.Idle? && forall a :: a in acts ==> !Interferes(a)
    ensures !Pending(Run(s, acts).t)
    decreases |acts|
  {
    if acts != [] {
      assert acts[0] in acts;
      ServedStep(s, acts[0]);
      NextKeepsInv(s, acts[0]);
      ServedStaysServed(Next(s, acts[0]), acts[1..]);
    }
  }

  lemma ServedStep(s: System, a: Action)
    requires !Pending(s.t) && s.caller.Idle? && !Interferes(a)
    ensures !Pending(Next(s, a).t) && Next(s, a).caller.Idle?
  {
    if a.Finish? && s.looper.Decided? {
      ServedOneMore(s.t.fired, Firing(s.looper.deadline, s.looper.update, s.looper.clock));
    }
  }

  /** A pending deadline leaves the looper a step to take, at the latest when the message is due. */
  lemma LooperNeverStuck(s: System)
    requires Inv(s) && Pending(s.t) && s.caller.Idle?
    ensures s.looper.Polling? ==> s.t.queue != []
    ensures !s.looper.Polling? || s.t.queue[0] <= s.now ==> exists a :: LooperAction(a) && Next(s, a) != s
  {
    var a := if s.looper.Polling? then Dispatch else LooperStep(s.looper);
    assert !s.looper.Polling? || s.t.queue[0] <= s.now ==> LooperAction(a) && Next(s, a) != s;
  }

  /**
   Whatever the schedule: once a pending deadline has passed and nobody interferes, it is acted
   upon within seven steps of the looper's own.
   */
  lemma {:induction false} PendingServedInSeven(s: System, acts: seq<Action>)
    requires Inv(s) && Pending(s.t) && s.caller.Idle? && s.t.timeout <= s.now
    requires forall a :: a in acts ==> !Interferes(a)
    ensures Pending(Run(s, acts).t) ==> LooperTaken(s, acts) + ServeRank(Run(s, acts)) <= ServeRank(s) <= 7
    ensures LooperTaken(s, acts) >= 7 ==> !Pending(Run(s, acts).t)
    decreases |acts|
  {
    if acts == [] {
      ServeRankPositive(s);
    } else {
      var s1 := Next(s, acts[0]);
      assert acts[0] in acts;
      ServeStep(s, acts[0]);
      NextKeepsInv(s, acts[0]);
      if Pending(s1.t) {
        PendingServedInSeven(s1, acts[1..]);
      } else {
        ServedStaysServed(s1, acts[1..]);
      }
    }
  }
}
