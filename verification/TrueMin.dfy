/**
 The minimum a hint session asks for: a current value that hints may boost for a while, and the
 value saved underneath that comes back when the boost ends.
 */
module TrueMin {
  import opened CppInt

  const UINT32_RANGE: int := 0x1_0000_0000
  const INT32_LIMIT: int := 0x8000_0000

  datatype Saved = Nothing | Just(v: int)

  datatype Boost = Boost(currentMin: int, saved: Saved)

  /** The configured minima; `uint32_t` each. */
  datatype Levels = Levels(low: nat, init: nat, high: nat, pidOn: bool)

  predicate ValidLevels(c: Levels) {
    c.low <= c.init <= c.high < INT32_LIMIT
  }

  datatype Hint = LoadUp | LoadDown | LoadReset | LoadResume | Invalid

  function AsUint32(x: int): nat {
    x % UINT32_RANGE
  }

  function AsInt32(x: nat): int {
    if x % UINT32_RANGE >= INT32_LIMIT then x % UINT32_RANGE - UINT32_RANGE else x % UINT32_RANGE
  }

  /** `disableTemporaryBoost` */
  function Restored(b: Boost): Boost {
    if b.saved.Just? then Boost(b.saved.v, Nothing) else b
  }

  /** Every hint first ends the boost before it; only then may it start another. */
  function Hinted(b: Boost, h: Hint, c: Levels): Boost {
    var r := Restored(b);
    match h
    case LoadUp => Boost(c.high, Just(r.currentMin))
    case LoadDown => Boost(c.low, Nothing)
    case LoadReset => Boost(c.high, Just(AsInt32(Max(c.init, AsUint32(r.currentMin)))))
    case LoadResume => r
    case Invalid => r
  }

  /** A report of work durations, with the controller's output. */
  function Reported(b: Boost, output: int, c: Levels): Boost {
    var r := Restored(b);
    if !c.pidOn then Boost(c.high, Nothing)
    else Boost(Max(c.low, Min(c.high, r.currentMin + output)), Nothing)
  }

  /** The value the session comes back to once no boost is on. */
  function TrueMinOf(b: Boost): int {
    if b.saved.Just? then b.saved.v else b.currentMin
  }

  /** The largest of these minima, and 0 when there is none above it. */
  ghost function Peak(mins: set<int>): (p: int)
    ensures p >= 0
    ensures forall m :: m in mins ==> m <= p
    ensures p == 0 || p in mins
  {
    if !exists m :: m in mins then 0
    else
      var x :| x in mins;
      var rest := Peak(mins - {x});
      assert forall k :: k in mins ==> k == x || k in mins - {x};
      if x > rest then x else rest
  }

  lemma PeakIsUnique(mins: set<int>, p: int)
    requires p >= 0 && (forall m :: m in mins ==> m <= p) && (p == 0 || p in mins)
    ensures p == Peak(mins)
  {
  }

  // --- Runs ------------------------------------------------------------------------------------

  datatype Op =
    | SendHint(h: Hint)
    | BoostTimeout
    | StaleTimeout
    | Pause
    | Resume
    | SetThreads
    | Report(output: int)

  function Step(b: Boost, op: Op, c: Levels): Boost {
    match op
    case SendHint(h) => Hinted(b, h, c)
    case BoostTimeout => Restored(b)
    case StaleTimeout => Restored(b)
    case Pause => Restored(b)
    case Resume => b
    case SetThreads => b.(currentMin := c.init)
    case Report(output) => Reported(b, output, c)
  }

  function Run(b: Boost, ops: seq<Op>, c: Levels): Boost {
    if ops == [] then b else Step(Run(b, ops[..|ops| - 1], c), ops[|ops| - 1], c)
  }

  /** The session right after construction, which ends by sending itself a reset hint. */
  function Constructed(c: Levels): Boost {
    Hinted(Boost(0, Nothing), LoadReset, c)
  }

  /** Hints that only boost or resume, expiry, staleness, pausing and resuming. */
  predicate Temporary(op: Op) {
    match op
    case SendHint(h) => h.LoadUp? || h.LoadResume? || h.Invalid?
    case SetThreads => false
    case Report(_) => false
    case _ => true
  }

  /** No sequence of temporary operations changes the true minimum. */
  lemma {:induction false} TemporaryKeepsTrueMin(b: Boost, ops: seq<Op>, c: Levels)
    requires forall op :: op in ops ==> Temporary(op)
    ensures TrueMinOf(Run(b, ops, c)) == TrueMinOf(b)
  {
    if ops != [] {
      TemporaryKeepsTrueMin(b, ops[..|ops| - 1], c);
      assert Temporary(ops[|ops| - 1]);
    }
  }

  predicate InRange(b: Boost, c: Levels) {
    c.low <= TrueMinOf(b) <= c.high && c.low <= b.currentMin <= c.high
  }

  lemma HintKeepsRange(b: Boost, h: Hint, c: Levels)
    requires ValidLevels(c) && (InRange(b, c) || (h.LoadReset? && b == Boost(0, Nothing)))
    ensures InRange(Hinted(b, h, c), c)
  {
    var r := Restored(b).currentMin;
    assert AsUint32(r) == r && AsInt32(Max(c.init, r)) == Max(c.init, r);
  }

  lemma StepKeepsRange(b: Boost, op: Op, c: Levels)
    requires ValidLevels(c) && InRange(b, c)
    ensures InRange(Step(b, op, c), c)
  {
    if op.SendHint? {
      hide Hinted;
      HintKeepsRange(b, op.h, c);
    }
  }

  /**
   From construction on, through any operations and any controller output, both the true minimum
   and the current one stay within the configured range.
   */
  lemma {:induction false} MinStaysInRange(ops: seq<Op>, c: Levels)
    requires ValidLevels(c)
    ensures var b := Run(Constructed(c), ops, c);
            c.low <= TrueMinOf(b) <= c.high && c.low <= b.currentMin <= c.high
  {
    hide Hinted, Step;
    if ops == [] {
      HintKeepsRange(Boost(0, Nothing), LoadReset, c);
    } else {
      MinStaysInRange(ops[..|ops| - 1], c);
      StepKeepsRange(Run(Constructed(c), ops[..|ops| - 1], c), ops[|ops| - 1], c);
    }
  }

  /** Expiry, staleness and pausing end the boost and leave its true minimum. */
  lemma BoostEndsAtTrueMin(b: Boost, c: Levels, op: Op)
    requires op.BoostTimeout? || op.StaleTimeout? || op.Pause?
    ensures Step(b, op, c) == Boost(TrueMinOf(b), Nothing)
  {
  }

  /**
   However a session was boosted and unboosted by temporary operations, once one of them ends the
   boost the current minimum is the one underneath from before all of them.
   */
  lemma TemporaryEndsWhereItBegan(b: Boost, ops: seq<Op>, c: Levels)
    requires ops != [] && forall op :: op in ops ==> Temporary(op)
    requires var op := ops[|ops| - 1]; op.BoostTimeout? || op.StaleTimeout? || op.Pause?
    ensures Run(b, ops, c) == Boost(TrueMinOf(b), Nothing)
  {
    var before := ops[..|ops| - 1];
    TemporaryKeepsTrueMin(b, before, c);
    BoostEndsAtTrueMin(Run(b, before, c), c, ops[|ops| - 1]);
  }

  /**
   What each hint does to the minimum asked for and to the one underneath: up and reset ask for
   the high one on top of the true one, down asks for the low one for good, and the others just
   end the boost.
   */
  lemma HintsMoveMin(b: Boost, h: Hint, c: Levels)
    requires ValidLevels(c) && c.low <= TrueMinOf(b) <= c.high
    ensures var now, min := Hinted(b, h, c), TrueMinOf(b);
            && (now.saved.Just? <==> h == LoadUp || h == LoadReset)
            && now.currentMin == (if h == LoadUp || h == LoadReset then c.high
                                  else if h == LoadDown then c.low else min)
            && TrueMinOf(now) == (if h == LoadDown then c.low
                                  else if h == LoadReset && min < c.init then c.init else min)
  {
  }

  /**
   A report ends the boost. The minimum then moves by exactly the controller's output while that
   stays within the range, and stops at the end it would pass; without a controller it is the
   high one.
   */
  lemma ReportMovesMin(b: Boost, output: int, c: Levels)
    requires ValidLevels(c)
    ensures var now, moved := Step(b, Report(output), c), TrueMinOf(b) + output;
            && now.saved.Nothing?
            && (!c.pidOn ==> now.currentMin == c.high)
            && (c.pidOn && c.low <= moved <= c.high ==> now.currentMin == moved)
            && (c.pidOn && moved < c.low ==> now.currentMin == c.low)
            && (c.pidOn && c.high < moved ==> now.currentMin == c.high)
  {
  }

  /** A reset hint raises the true minimum to the initial one, and lowers it never. */
  lemma ResetRaisesToInit(b: Boost, c: Levels)
    requires ValidLevels(c) && c.low <= TrueMinOf(b) <= c.high
    ensures TrueMinOf(Hinted(b, LoadReset, c)) == Max(c.init, TrueMinOf(b))
  {
  }

  /** `setThreads` resets the true minimum only when no boost is on (or it was initial anyway). */
  lemma SetThreadsResetsIffNotBoosted(b: Boost, c: Levels)
    ensures TrueMinOf(Step(b, SetThreads, c)) == c.init <==> (b.saved.Nothing? || b.saved.v == c.init)
    ensures b.saved.Just? ==> TrueMinOf(Step(b, SetThreads, c)) == TrueMinOf(b)
  {
  }

  /** A run that gets there: a report raises the true minimum, and a boost keeps `setThreads` from it. */
  lemma BoostKeepsThreadsFromReset(c: Levels)
    requires ValidLevels(c) && c.init < c.high && c.pidOn
    ensures TrueMinOf(Run(Constructed(c), [Report(1), SendHint(LoadUp), SetThreads], c)) == c.init + 1
  {
    var ops := [Report(1), SendHint(LoadUp), SetThreads];
    assert ops[..2] == [Report(1), SendHint(LoadUp)] && ops[..2][..1] == [Report(1)] && [Report(1)][..0] == [];
    ResetRaisesToInit(Boost(c.low, Nothing), c);
    var b0 := Constructed(c);
    assert b0 == Boost(c.high, Just(c.init));
    assert Run(b0, [Report(1)], c) == Boost(c.init + 1, Nothing);
    assert Run(b0, ops[..2], c) == Boost(c.high, Just(c.init + 1));
  }
}
