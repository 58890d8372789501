/**
 `sendHint` racing with the boost timer: two threads that save, restore and clear the session's
 minimum. Each read and write is a step; the session lock only keeps a restore and the clear
 behind it together against other writes of the current minimum. The hint's thread runs once;
 the timer's thread may run `onTimeout` as often as it likes, each run starting at any moment,
 which covers an old message firing late as well as the new one firing early.
 */
module BoostRace {
  import opened CppInt
  import opened TrueMin

  datatype Thread = Hinter | Timer

  // What a thread does next. Both begin by `disableTemporaryBoost`; `AT_REST` ends the hint.
  const LOAD: nat := 0     // read the saved minimum
  const RESTORE: nat := 1  // lock, and write it to the current one
  const CLEAR: nat := 2    // forget the saved one, and unlock
  const READ: nat := 3     // read the current minimum
  const SAVE: nat := 4     // hint: save it, or what a reset makes of it
  const ARM: nat := 5      // hint: restart the boost timer
  const RAISE: nat := 6    // hint: write, under the lock, the minimum it asks for
  const AT_REST: nat := 7
  const WRITE: nat := 4    // timer: write, under the lock, the minimum that was read

  /** Where the hint's thread was at each step of the timer's latest run that had something to do. */
  datatype Marks = Marks(load: nat, restore: nat, clear: nat, read: nat, write: nat)

  datatype Race = Race(
    currentMin: int,
    saved: Saved,
    hint: nat, hintSaved: Saved, hintRead: int,
    timer: nat, timerSaved: Saved, timerRead: int,
    at: Marks)

  datatype Kind = Up | Down | Reset | Resume

  datatype Call = Call(kind: Kind, levels: Levels)

  function HintOf(c: Call): Hint {
    match c.kind
    case Up => LoadUp
    case Down => LoadDown
    case Reset => LoadReset
    case Resume => LoadResume
  }

  predicate Saves(c: Call) {
    c.kind.Up? || c.kind.Reset?
  }

  /** What a hint saves that found `v`. */
  function ToSave(c: Call, v: int): int {
    if c.kind.Reset? then AsInt32(Max(c.levels.init, AsUint32(v))) else v
  }

  /** What it writes in the end. */
  function ToWrite(c: Call, v: int): int {
    match c.kind
    case Down => c.levels.low
    case Resume => v
    case _ => c.levels.high
  }

  /** One step; a thread that needs the session lock while the other holds it has to wait. */
  function HinterStep(r: Race, c: Call): Race {
    var unboosted := if c.kind.Down? then RAISE else READ;
    if r.timer == CLEAR && (r.hint == RESTORE || r.hint == RAISE) then r
    else if r.hint == LOAD then r.(hintSaved := r.saved, hint := if r.saved.Just? then RESTORE else unboosted)
    else if r.hint == RESTORE && r.hintSaved.Just? then r.(currentMin := r.hintSaved.v, hint := CLEAR)
    else if r.hint == CLEAR then r.(saved := Nothing, hint := unboosted)
    else if r.hint == READ then r.(hintRead := r.currentMin, hint := if Saves(c) then SAVE else RAISE)
    else if r.hint == SAVE then r.(saved := Just(ToSave(c, r.hintRead)), hint := ARM)
    else if r.hint == ARM then r.(hint := RAISE)
    else if r.hint == RAISE then r.(currentMin := ToWrite(c, r.hintRead), hint := AT_REST)
    else r
  }

  function TimerStep(r: Race): Race {
    if r.hint == CLEAR && (r.timer == RESTORE || r.timer == WRITE) then r
    else if r.timer == LOAD then
      if r.saved.Just? then r.(timerSaved := r.saved, timer := RESTORE, at := r.at.(load := r.hint)) else r
    else if r.timer == RESTORE && r.timerSaved.Just? then
      r.(currentMin := r.timerSaved.v, timer := CLEAR, at := r.at.(restore := r.hint))
    else if r.timer == CLEAR then r.(saved := Nothing, timer := READ, at := r.at.(clear := r.hint))
    else if r.timer == READ then r.(timerRead := r.currentMin, timer := WRITE, at := r.at.(read := r.hint))
    else if r.timer == WRITE then r.(currentMin := r.timerRead, timer := LOAD, at := r.at.(write := r.hint))
    else r
  }

  function Run(r: Race, c: Call, schedule: seq<Thread>): Race {
    if schedule == [] then r
    else
      var before := Run(r, c, schedule[..|schedule| - 1]);
      if schedule[|schedule| - 1].Hinter? then HinterStep(before, c) else TimerStep(before)
  }

  /** Both threads about to begin. */
  function Start(b: Boost): Race {
    Race(b.currentMin, b.saved, LOAD, Nothing, 0, LOAD, Nothing, 0, Marks(LOAD, LOAD, LOAD, LOAD, LOAD))
  }

  // --- The outcome, from where the timer's steps fell --------------------------------------------

  /** What the timer's run restores: what the hint saved, if it was loaded after the save. */
  function Restores(c: Call, v: int, at: Marks): int {
    if Saves(c) && at.load > SAVE then ToSave(c, v) else v
  }

  /** The run has put that back after the hint wrote: it restored after, or wrote what it read before. */
  predicate PutBack(at: Marks) {
    at.restore > RAISE || (at.write > RAISE && at.read <= RAISE)
  }

  /** The true minimum both threads leave behind. */
  function Outcome(c: Call, v: int, at: Marks): int {
    if Saves(c) && at.clear <= SAVE then ToSave(c, v)
    else if PutBack(at) then Restores(c, v, at)
    else ToWrite(c, v)
  }

  /** The timer cleared the minimum just saved, and did not put anything back. */
  predicate Overrun(at: Marks) {
    at.clear > SAVE && !PutBack(at)
  }

  // --- The invariant -----------------------------------------------------------------------------

  /** `v` is the true minimum underneath it all. */
  ghost predicate Inv(r: Race, c: Call, v: int) {
    && r.hint <= AT_REST && r.timer <= WRITE
    && (!Saves(c) ==> r.hint != SAVE && r.hint != ARM) && (c.kind.Down? ==> r.hint != READ)
    && (r.saved == Nothing || r.saved == Just(if r.hint > SAVE then ToSave(c, v) else v))
    && (r.hint == RESTORE ==> r.hintSaved == Just(v))
    && (r.hint > READ && !c.kind.Down? ==> r.hintRead == v)
    && (r.timer > LOAD ==> r.timerSaved == Just(Restores(c, v, r.at)))
    && MarksInOrder(r)
    && (if r.hint == AT_REST then Written(r, c, v) else Level(r, c, v))
    && (r.hint >= READ && (!Saves(c) || r.hint <= SAVE) ==> r.saved == Nothing)
    && (Saves(c) && r.hint > SAVE ==> ClearIsKnown(r))
  }

  predicate MarksInOrder(r: Race) {
    && r.at.load <= r.hint && r.at.restore <= r.hint && r.at.clear <= r.hint
    && r.at.read <= r.hint && r.at.write <= r.hint
    && (r.timer == LOAD || r.timer > RESTORE ==> r.at.load <= r.at.restore)
    && (r.timer == LOAD || r.timer > CLEAR ==> r.at.restore <= r.at.clear)
    && (r.timer == LOAD || r.timer > READ ==> r.at.clear <= r.at.read)
    && (r.timer == LOAD ==> r.at.read <= r.at.write)
  }

  /** Once saved, the minimum is gone exactly when the timer's run cleared it after the save. */
  predicate ClearIsKnown(r: Race) {
    && (r.saved == Nothing ==> r.at.clear > SAVE && (r.timer == LOAD || r.timer > CLEAR))
    && (r.saved.Just? && (r.timer == LOAD || r.timer > CLEAR) ==> r.at.clear <= SAVE)
  }

  /** Before the hint writes. */
  ghost predicate Level(r: Race, c: Call, v: int) {
    && (r.hint <= SAVE || !Saves(c) ==>
          r.currentMin == v || (r.saved == Just(v) && r.hint <= RESTORE && r.timer <= RESTORE))
    && (r.timer > RESTORE ==> r.currentMin == Restores(c, v, r.at))
    && (r.timer == WRITE ==> r.timerRead == Restores(c, v, r.at))
  }

  function AfterRestore(c: Call, v: int, at: Marks): int {
    if at.restore > RAISE then Restores(c, v, at) else ToWrite(c, v)
  }

  /** After it has. */
  ghost predicate Written(r: Race, c: Call, v: int) {
    && (c.kind.Resume? ==> r.currentMin == v)
    && (r.timer > RESTORE ==> r.currentMin == AfterRestore(c, v, r.at))
    && (r.timer == WRITE ==>
          r.timerRead == if r.at.read > RAISE then AfterRestore(c, v, r.at) else Restores(c, v, r.at))
    && (r.timer == LOAD && r.saved == Nothing ==>
          r.currentMin == if PutBack(r.at) then Restores(c, v, r.at) else ToWrite(c, v))
  }

  lemma HinterKeepsInv(r: Race, c: Call, v: int)
    requires Inv(r, c, v)
    ensures Inv(HinterStep(r, c), c, v)
  {
    hide AsInt32, AsUint32;
  }

  lemma TimerKeepsInv(r: Race, c: Call, v: int)
    requires Inv(r, c, v)
    ensures Inv(TimerStep(r), c, v)
  {
    hide AsInt32, AsUint32;
  }

  lemma {:induction false} RunKeepsInv(b: Boost, c: Call, schedule: seq<Thread>)
    ensures Inv(Run(Start(b), c, schedule), c, TrueMinOf(b))
  {
    if schedule != [] {
      var before := schedule[..|schedule| - 1];
      RunKeepsInv(b, c, before);
      HinterKeepsInv(Run(Start(b), c, before), c, TrueMinOf(b));
      TimerKeepsInv(Run(Start(b), c, before), c, TrueMinOf(b));
    }
  }

  function Minimum(r: Race): Boost {
    Boost(r.currentMin, r.saved)
  }

  /** For any hint and any schedule with any number of timeouts, once both threads are done. */
  lemma OutcomeIsExact(b: Boost, c: Call, schedule: seq<Thread>)
    requires var r := Run(Start(b), c, schedule); r.hint == AT_REST && r.timer == LOAD
    ensures var r := Run(Start(b), c, schedule);
            TrueMinOf(Minimum(r)) == Outcome(c, TrueMinOf(b), r.at)
  {
    RunKeepsInv(b, c, schedule);
  }

  /** So a boosting hint keeps the true minimum exactly when the timer did not overrun the save. */
  lemma TrueMinSurvivesIff(b: Boost, c: Call, schedule: seq<Thread>)
    requires c.kind.Up?
    requires var r := Run(Start(b), c, schedule); r.hint == AT_REST && r.timer == LOAD
    ensures var r := Run(Start(b), c, schedule);
            TrueMinOf(Minimum(r)) == TrueMinOf(b) <==> !Overrun(r.at) || c.levels.high == TrueMinOf(b)
  {
    OutcomeIsExact(b, c, schedule);
  }

  /**
   A reset leaves what it would leave alone exactly when the timer neither overran the save nor
   cleared after it and put back what it had loaded before (or that makes no difference).
   */
  lemma ResetSurvivesIff(b: Boost, c: Call, schedule: seq<Thread>)
    requires c.kind.Reset?
    requires var r := Run(Start(b), c, schedule); r.hint == AT_REST && r.timer == LOAD
    ensures var r, v := Run(Start(b), c, schedule), TrueMinOf(b);
            TrueMinOf(Minimum(r)) == ToSave(c, v)
            <==> || r.at.clear <= SAVE
                 || (if !PutBack(r.at) then c.levels.high == ToSave(c, v)
                     else r.at.load > SAVE || v == ToSave(c, v))
  {
    OutcomeIsExact(b, c, schedule);
  }

  /** A lowering hint takes effect exactly when the timer did not put the old minimum back. */
  lemma DownTakesEffectIff(b: Boost, c: Call, schedule: seq<Thread>)
    requires c.kind.Down?
    requires var r := Run(Start(b), c, schedule); r.hint == AT_REST && r.timer == LOAD
    ensures var r := Run(Start(b), c, schedule);
            TrueMinOf(Minimum(r)) == c.levels.low <==> !PutBack(r.at) || TrueMinOf(b) == c.levels.low
  {
    OutcomeIsExact(b, c, schedule);
  }

  /** A resuming hint never loses it, whatever the schedule. */
  lemma ResumeAlwaysSurvives(b: Boost, c: Call, schedule: seq<Thread>)
    requires c.kind.Resume? && Run(Start(b), c, schedule).hint == AT_REST
    ensures TrueMinOf(Minimum(Run(Start(b), c, schedule))) == TrueMinOf(b)
  {
    RunKeepsInv(b, c, schedule);
  }

  // --- Each thread alone ---------------------------------------------------------------------------

  /** Left alone, the hint's thread does in its steps what the hint does as one call. */
  lemma {:induction false} AloneIsHinted(b: Boost, c: Call, schedule: seq<Thread>)
    requires Timer !in schedule
    ensures var r := Run(Start(b), c, schedule);
            && r.timer == LOAD && AloneSoFar(r, b, c)
            && (r.hint == AT_REST ==> Minimum(r) == Hinted(b, HintOf(c), c.levels))
  {
    if schedule != [] {
      AloneIsHinted(b, c, schedule[..|schedule| - 1]);
      assert schedule[|schedule| - 1] in schedule;
    }
  }

  ghost predicate AloneSoFar(r: Race, b: Boost, c: Call) {
    var v := TrueMinOf(b);
    if r.hint == LOAD then Minimum(r) == b
    else if r.hint == RESTORE then Minimum(r) == b && r.hintSaved == b.saved && b.saved.Just?
    else if r.hint == CLEAR then Minimum(r) == Boost(v, b.saved)
    else if r.hint == READ then Minimum(r) == Boost(v, Nothing)
    else if r.hint == SAVE || (r.hint == RAISE && !Saves(c)) then
      Minimum(r) == Boost(v, Nothing) && (r.hintRead == v || c.kind.Down?)
    else if r.hint == ARM || r.hint == RAISE then Saves(c) && Minimum(r) == Boost(v, Just(ToSave(c, v)))
    else Minimum(r) == Hinted(b, HintOf(c), c.levels)
  }

  /** Left alone, the timer's thread restores the true minimum. */
  lemma TimerAloneIsRestored(b: Boost, c: Call)
    ensures Minimum(Run(Start(b), c, FIVE_OF_TIMER)) == Restored(b)
  {
    FiveOfTimer(Start(b), c);
  }

  /**
   The stale timer's run, which ends once the saved minimum is cleared, is covered: reading the
   minimum and writing it back at once changes nothing. Both timers are served by one looper.
   */
  lemma StaleRunIsCovered(r: Race, c: Call, v: int)
    requires Inv(r, c, v) && r.timer == CLEAR && r.hint != CLEAR
    ensures var cleared := TimerStep(r);
            var rest := TimerStep(TimerStep(cleared));
            rest.timer == LOAD && Minimum(rest) == Minimum(cleared) && rest.hint == cleared.hint
  {
  }

  /** The lock keeps the two threads from clearing at once. */
  lemma {:induction false} ClearsExclude(b: Boost, c: Call, schedule: seq<Thread>)
    ensures var r := Run(Start(b), c, schedule); !(r.hint == CLEAR && r.timer == CLEAR)
  {
    if schedule != [] {
      ClearsExclude(b, c, schedule[..|schedule| - 1]);
    }
  }

  lemma Then(r: Race, c: Call, schedule: seq<Thread>, t: Thread)
    ensures Run(r, c, schedule + [t]) ==
            if t.Hinter? then HinterStep(Run(r, c, schedule), c) else TimerStep(Run(r, c, schedule))
  {
    assert (schedule + [t])[..|schedule|] == schedule;
  }

  lemma {:induction false} ThenAll(r: Race, c: Call, schedule: seq<Thread>, more: seq<Thread>)
    ensures Run(r, c, schedule + more) == Run(Run(r, c, schedule), c, more)
  {
    if more == [] {
      assert schedule + more == schedule;
    } else {
      var n := |more| - 1;
      assert schedule + more == schedule + more[..n] + [more[n]];
      Then(r, c, schedule + more[..n], more[n]);
      ThenAll(r, c, schedule, more[..n]);
    }
  }

  const FIVE_OF_HINT: seq<Thread> := [Hinter, Hinter, Hinter, Hinter, Hinter]
  const FIVE_OF_TIMER: seq<Thread> := [Timer, Timer, Timer, Timer, Timer]

  lemma FiveOfHint(r: Race, c: Call)
    ensures Run(r, c, FIVE_OF_HINT) ==
            HinterStep(HinterStep(HinterStep(HinterStep(HinterStep(r, c), c), c), c), c)
  {
    hide HinterStep, TimerStep;
    assert [] + [Hinter] == [Hinter] && Run(r, c, []) == r;
    Then(r, c, [], Hinter);
    Then(r, c, [Hinter], Hinter);
    assert [Hinter] + [Hinter] == [Hinter, Hinter];
    Then(r, c, [Hinter, Hinter], Hinter);
    assert [Hinter, Hinter] + [Hinter] == [Hinter, Hinter, Hinter];
    Then(r, c, [Hinter, Hinter, Hinter], Hinter);
    assert [Hinter, Hinter, Hinter] + [Hinter] == [Hinter, Hinter, Hinter, Hinter];
    Then(r, c, [Hinter, Hinter, Hinter, Hinter], Hinter);
    assert [Hinter, Hinter, Hinter, Hinter] + [Hinter] == [Hinter, Hinter, Hinter, Hinter, Hinter];
  }

  lemma FiveOfTimer(r: Race, c: Call)
    ensures Run(r, c, FIVE_OF_TIMER) == TimerStep(TimerStep(TimerStep(TimerStep(TimerStep(r)))))
  {
    hide HinterStep, TimerStep;
    assert [] + [Timer] == [Timer] && Run(r, c, []) == r;
    Then(r, c, [], Timer);
    Then(r, c, [Timer], Timer);
    assert [Timer] + [Timer] == [Timer, Timer];
    Then(r, c, [Timer, Timer], Timer);
    assert [Timer, Timer] + [Timer] == [Timer, Timer, Timer];
    Then(r, c, [Timer, Timer, Timer], Timer);
    assert [Timer, Timer, Timer] + [Timer] == [Timer, Timer, Timer, Timer];
    Then(r, c, [Timer, Timer, Timer, Timer], Timer);
    assert [Timer, Timer, Timer, Timer] + [Timer] == [Timer, Timer, Timer, Timer, Timer];
  }

  /** The old boost expires between the save and the raise: the boosted minimum becomes the true one. */
  lemma ExpiryInsideHintLoses(v: int, c: Call)
    requires c.kind.Up? && c.levels.high != v
    ensures var high := c.levels.high;
            var r := Run(Start(Boost(high, Just(v))), c, FIVE_OF_HINT + FIVE_OF_TIMER + [Hinter, Hinter]);
            && r.hint == AT_REST && r.timer == LOAD && Minimum(r) == Boost(high, Nothing)
            && TrueMinOf(Minimum(r)) != v && Overrun(r.at)
  {
    var r0 := Start(Boost(c.levels.high, Just(v)));
    FiveOfHint(r0, c);
    var r1 := Run(r0, c, FIVE_OF_HINT);
    FiveOfTimer(r1, c);
    ThenAll(r0, c, FIVE_OF_HINT, FIVE_OF_TIMER);
    var s := FIVE_OF_HINT + FIVE_OF_TIMER;
    Then(r0, c, s, Hinter);
    Then(r0, c, s + [Hinter], Hinter);
    assert s + [Hinter] + [Hinter] == s + [Hinter, Hinter];
  }

  lemma Twice(r: Race, c: Call, schedule: seq<Thread>, t: Thread)
    ensures Run(r, c, schedule + [t, t]) ==
            var r' := Run(r, c, schedule);
            if t.Hinter? then HinterStep(HinterStep(r', c), c) else TimerStep(TimerStep(r'))
  {
    assert schedule + [t, t] == schedule + [t] + [t];
    Then(r, c, schedule, t);
    Then(r, c, schedule + [t], t);
  }

  const FOUR_OF_TIMER: seq<Thread> := [Timer, Timer] + [Timer, Timer]

  /** The old boost expires around a lowering hint: what the timer read before is written after it. */
  lemma ExpiryAroundDownLoses(high: int, v: int, c: Call)
    requires c.kind.Down? && c.levels.low != v
    ensures var r := Run(Start(Boost(high, Just(v))), c, FOUR_OF_TIMER + [Hinter, Hinter] + [Timer]);
            && r.hint == AT_REST && r.timer == LOAD && Minimum(r) == Boost(v, Nothing)
            && TrueMinOf(Minimum(r)) != c.levels.low && PutBack(r.at)
  {
    var r0 := Start(Boost(high, Just(v)));
    assert [] + [Timer, Timer] == [Timer, Timer];
    Twice(r0, c, [], Timer);
    Twice(r0, c, [Timer, Timer], Timer);
    var r1 := Run(r0, c, FOUR_OF_TIMER);
    assert r1.timer == WRITE && r1.timerRead == v && r1.currentMin == v && r1.saved == Nothing;
    Twice(r0, c, FOUR_OF_TIMER, Hinter);
    Then(r0, c, FOUR_OF_TIMER + [Hinter, Hinter], Timer);
  }

  /** The timer has loaded the old boost, and a reset has ended it and saved what it makes of it. */
  predicate ResetOverLoaded(r: Race, c: Call, v: int) {
    r.hint == ARM && r.saved == Just(ToSave(c, v)) && r.timer == RESTORE && r.timerSaved == Just(v) && r.at.load == LOAD
  }

  lemma FiveOfReset(r: Race, v: int, c: Call)
    requires c.kind.Reset? && r.hint == LOAD && r.saved == Just(v)
    requires r.timer == RESTORE && r.timerSaved == Just(v) && r.at.load == LOAD
    ensures ResetOverLoaded(HinterStep(HinterStep(HinterStep(HinterStep(HinterStep(r, c), c), c), c), c), c, v)
  {
    var h2 := HinterStep(HinterStep(r, c), c);
    assert h2 == r.(hintSaved := Just(v), currentMin := v, hint := CLEAR);
    var h4 := HinterStep(HinterStep(h2, c), c);
    assert h4 == h2.(saved := Nothing, hintRead := v, hint := SAVE);
  }

  lemma LoadThenReset(v: int, c: Call)
    requires c.kind.Reset?
    ensures ResetOverLoaded(Run(Start(Boost(c.levels.high, Just(v))), c, [Timer] + FIVE_OF_HINT), c, v)
  {
    hide HinterStep, ResetOverLoaded;
    var r0 := Start(Boost(c.levels.high, Just(v)));
    assert [] + [Timer] == [Timer];
    Then(r0, c, [], Timer);
    var r1 := Run(r0, c, [Timer]);
    assert r1 == TimerStep(r0);
    FiveOfReset(r1, v, c);
    FiveOfHint(r1, c);
    ThenAll(r0, c, [Timer], FIVE_OF_HINT);
  }

  lemma RestoreAfterReset(r: Race, v: int, c: Call)
    requires ResetOverLoaded(r, c, v)
    ensures var r' := TimerStep(TimerStep(TimerStep(TimerStep(HinterStep(HinterStep(r, c), c)))));
            r'.hint == AT_REST && r'.timer == LOAD && Minimum(r') == Boost(v, Nothing) && PutBack(r'.at)
  {
  }

  /** The old boost is loaded before a reset and restored after it: the session misses its reset. */
  lemma ExpiryAroundResetLoses(v: int, c: Call)
    requires c.kind.Reset? && 0 <= v < c.levels.init < INT32_LIMIT
    ensures var r := Run(Start(Boost(c.levels.high, Just(v))), c,
                         [Timer] + FIVE_OF_HINT + [Hinter, Hinter] + [Timer, Timer] + [Timer, Timer]);
            && r.hint == AT_REST && r.timer == LOAD && Minimum(r) == Boost(v, Nothing)
            && TrueMinOf(Minimum(r)) != ToSave(c, v) == c.levels.init && PutBack(r.at)
  {
    hide Run, HinterStep, TimerStep, ResetOverLoaded, PutBack;
    var r0, s := Start(Boost(c.levels.high, Just(v))), [Timer] + FIVE_OF_HINT;
    LoadThenReset(v, c);
    RestoreAfterReset(Run(r0, c, s), v, c);
    Twice(r0, c, s, Hinter);
    Twice(r0, c, s + [Hinter, Hinter], Timer);
    Twice(r0, c, s + [Hinter, Hinter] + [Timer, Timer], Timer);
  }
}
