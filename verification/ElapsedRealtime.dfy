/**
 The estimator that turns modem fix times into elapsed realtime: it waits for the modem clock to
 settle, anchors a clock difference once, and from then on updates that difference so that steps
 of the UTC clock cancel out.
 */
module ElapsedRealtime {

  const STABILIZATION: int := 5

  /** The two clocks as read together, or the failure to read them. */
  datatype Clock = Unreadable | Read(utc: int, boot: int)

  datatype Fix = Fix(data: int, trusted: bool, tbf: int, clock: Clock)

  datatype Estimator = Estimator(
    travel: int,       // the assumed initial travel time
    clockDiff: int,
    prevUtc: int,
    prevBoot: int,
    prevData: int,
    threshold: int)

  function Fresh(travel: int): Estimator {
    Estimator(travel, 0, 0, 0, 0, STABILIZATION)
  }

  /** The fix updates the estimator: its time can be trusted and the clocks could be read. */
  predicate Effective(f: Fix) {
    f.trusted && f.clock.Read?
  }

  /** The fix does not arrive one announced period after the previous one. */
  predicate CadenceBreak(e: Estimator, f: Fix) {
    Effective(f) && f.tbf > 0 && f.tbf != f.data - e.prevData
  }

  function Settled(e: Estimator, f: Fix): int {
    if CadenceBreak(e, f) then STABILIZATION else e.threshold
  }

  predicate Anchors(e: Estimator, f: Fix) {
    Effective(f) && Settled(e, f) == 0
  }

  function Next(e: Estimator, f: Fix): Estimator {
    if !Effective(f) then e
    else
      var Read(utc, boot) := f.clock;
      var diff :=
        if Settled(e, f) == 0 then utc - f.data - e.travel
        else if Settled(e, f) < 0 then e.clockDiff + (utc - boot) - (e.prevUtc - e.prevBoot)
        else e.clockDiff;
      Estimator(e.travel, diff, utc, boot, f.data, Settled(e, f) - 1)
  }

  function Estimate(e: Estimator, f: Fix): int {
    if f.clock.Unreadable? then -1
    else if Effective(f) && Settled(e, f) < 0 then f.clock.boot - (f.clock.utc - f.data - Next(e, f).clockDiff)
    else f.clock.boot - e.travel
  }

  class ElapsedRealtimeEstimator {
    const mInitialTravelTime: int
    var mCurrentClockDiff: int
    var mPrevUtcTimeNanos: int
    var mPrevBootTimeNanos: int
    var mPrevDataTimeNanos: int
    var mFixTimeStablizationThreshold: int

    ghost function View(): Estimator
      reads this
    {
      Estimator(mInitialTravelTime, mCurrentClockDiff, mPrevUtcTimeNanos, mPrevBootTimeNanos,
                mPrevDataTimeNanos, mFixTimeStablizationThreshold)
    }

    constructor (travelTimeNanosEstimate: int)
      ensures View() == Fresh(travelTimeNanosEstimate)
    {
      mInitialTravelTime := travelTimeNanosEstimate;
      new;
      Reset();
    }

    method Reset()
      modifies this
      ensures View() == Fresh(mInitialTravelTime)
    {
      mCurrentClockDiff := 0;
      mPrevDataTimeNanos := 0;
      mPrevUtcTimeNanos := 0;
      mPrevBootTimeNanos := 0;
      mFixTimeStablizationThreshold := STABILIZATION;
    }

    method GetElapsedRealtimeEstimateNanos(f: Fix) returns (estimate: int)
      modifies this
      ensures View() == Next(old(View()), f)
      ensures estimate == Estimate(old(View()), f)
    {
      var currentTravelTimeNanos := mInitialTravelTime;
      if f.clock.Unreadable? {
        return -1;
      }
      var Read(currentTimeNanos, sinceBootTimeNanos) := f.clock;
      if f.trusted {
        if f.tbf > 0 && f.tbf != f.data - mPrevDataTimeNanos {
          mFixTimeStablizationThreshold := STABILIZATION;
        }
        if mFixTimeStablizationThreshold == 0 {
          currentTravelTimeNanos := mInitialTravelTime;
          mCurrentClockDiff := currentTimeNanos - f.data - currentTravelTimeNanos;
        } else if mFixTimeStablizationThreshold < 0 {
          mCurrentClockDiff := mCurrentClockDiff + (currentTimeNanos - sinceBootTimeNanos)
            - (mPrevUtcTimeNanos - mPrevBootTimeNanos);
          currentTravelTimeNanos := currentTimeNanos - f.data - mCurrentClockDiff;
        }
        mPrevUtcTimeNanos := currentTimeNanos;
        mPrevBootTimeNanos := sinceBootTimeNanos;
        mPrevDataTimeNanos := f.data;
        mFixTimeStablizationThreshold := mFixTimeStablizationThreshold - 1;
      }
      return sinceBootTimeNanos - currentTravelTimeNanos;
    }
  }

  // --- Runs --------------------------------------------------------------------------------

  function Run(e: Estimator, fixes: seq<Fix>): Estimator {
    if fixes == [] then e else Next(Run(e, fixes[..|fixes| - 1]), fixes[|fixes| - 1])
  }

  function Result(e: Estimator, fixes: seq<Fix>, n: nat): int
    requires n < |fixes|
  {
    Estimate(Run(e, fixes[..n]), fixes[n])
  }

  predicate BreakAt(e: Estimator, fixes: seq<Fix>, n: nat)
    requires n < |fixes|
  {
    CadenceBreak(Run(e, fixes[..n]), fixes[n])
  }

  predicate AnchorsAt(e: Estimator, fixes: seq<Fix>, n: nat)
    requires n < |fixes|
  {
    Anchors(Run(e, fixes[..n]), fixes[n])
  }

  lemma {:induction false} TravelKept(e: Estimator, fixes: seq<Fix>)
    ensures Run(e, fixes).travel == e.travel
  {
    if fixes != [] {
      TravelKept(e, fixes[..|fixes| - 1]);
    }
  }

  lemma PrefixAgrees(e: Estimator, fixes: seq<Fix>, n: nat)
    requires n <= |fixes|
    ensures forall k :: 0 <= k < n ==> BreakAt(e, fixes[..n], k) == BreakAt(e, fixes, k)
    ensures forall k :: 0 <= k < n ==> AnchorsAt(e, fixes[..n], k) == AnchorsAt(e, fixes, k)
  {
    assert forall k :: 0 <= k < n ==> fixes[..n][..k] == fixes[..k];
  }

  /** How many of these fixes are effective. */
  function CountEffective(fixes: seq<Fix>): nat {
    if fixes == [] then 0
    else CountEffective(fixes[..|fixes| - 1]) + if Effective(fixes[|fixes| - 1]) then 1 else 0
  }

  /**
   A fix that cannot be trusted, or whose clocks cannot be read, leaves the estimator alone: the
   first is placed at its boot time less the assumed travel time, the second nowhere.
   */
  lemma OtherFixesFallBack(e: Estimator, f: Fix)
    ensures !f.trusted || f.clock.Unreadable? ==> Next(e, f) == e
    ensures f.clock.Read? && !f.trusted ==> Estimate(e, f) == f.clock.boot - e.travel
    ensures f.clock.Unreadable? ==> Estimate(e, f) == -1
  {
  }

  /** A break is a positive period that is not the time since the last effective fix. */
  lemma BreakIsMissedPeriod(e: Estimator, fixes: seq<Fix>, m: nat, n: nat)
    requires m < n < |fixes| && Effective(fixes[m]) && Effective(fixes[n])
    requires forall k :: m < k < n ==> !Effective(fixes[k])
    ensures BreakAt(e, fixes, n) <==> fixes[n].tbf > 0 && fixes[n].data - fixes[m].data != fixes[n].tbf
  {
    IdleFixesChangeNothing(e, fixes, m, n);
  }

  // --- Anchoring -----------------------------------------------------------------------------

  /** The clock difference telescopes back to the anchoring fix, whatever UTC did since. */
  lemma {:induction false} DiffTelescopes(e: Estimator, fixes: seq<Fix>, i: nat)
    requires i < |fixes| && AnchorsAt(e, fixes, i)
    requires forall k :: i < k < |fixes| ==> !BreakAt(e, fixes, k)
    ensures var s := Run(e, fixes);
            s.threshold < 0 &&
            s.clockDiff == s.prevUtc - s.prevBoot + fixes[i].clock.boot - fixes[i].data - e.travel
    decreases |fixes|
  {
    var n := |fixes| - 1;
    TravelKept(e, fixes[..n]);
    if i < n {
      PrefixAgrees(e, fixes, n);
      DiffTelescopes(e, fixes[..n], i);
      assert !BreakAt(e, fixes, n);
    }
  }

  /**
   From the anchoring fix until the next cadence break, every trusted fix is placed at the
   anchor's boot time less the assumed travel time, plus the modem time gone by since. Neither
   the UTC clock nor the boot time of the fix itself enters into it.
   */
  lemma EstimateFollowsModemClock(e: Estimator, fixes: seq<Fix>, i: nat, n: nat)
    requires i <= n < |fixes| && AnchorsAt(e, fixes, i) && Effective(fixes[n])
    requires forall k :: i < k <= n ==> !BreakAt(e, fixes, k)
    ensures Result(e, fixes, n) == fixes[i].clock.boot - e.travel + (fixes[n].data - fixes[i].data)
  {
    TravelKept(e, fixes[..n]);
    if i < n {
      PrefixAgrees(e, fixes, n);
      DiffTelescopes(e, fixes[..n], i);
      assert !BreakAt(e, fixes, n);
    }
  }

  /** With a positive period, consecutive estimates then differ by exactly that period. */
  lemma ConsecutiveEstimatesDifferByPeriod(e: Estimator, fixes: seq<Fix>, i: nat, m: nat, n: nat)
    requires i <= m < n < |fixes| && AnchorsAt(e, fixes, i)
    requires Effective(fixes[m]) && Effective(fixes[n]) && fixes[n].tbf > 0
    requires forall k :: m < k < n ==> !Effective(fixes[k])
    requires forall k :: i < k <= n ==> !BreakAt(e, fixes, k)
    ensures Result(e, fixes, n) - Result(e, fixes, m) == fixes[n].tbf
  {
    EstimateFollowsModemClock(e, fixes, i, n);
    EstimateFollowsModemClock(e, fixes, i, m);
    IdleFixesChangeNothing(e, fixes, m, n);
    assert !BreakAt(e, fixes, n);
  }

  lemma {:induction false} IdleFixesChangeNothing(e: Estimator, fixes: seq<Fix>, m: nat, n: nat)
    requires m < n <= |fixes|
    requires forall k :: m < k < n ==> !Effective(fixes[k])
    ensures Run(e, fixes[..n]) == Next(Run(e, fixes[..m]), fixes[m])
    decreases n
  {
    assert fixes[..n][..n - 1] == fixes[..n - 1];
    if m + 1 < n {
      IdleFixesChangeNothing(e, fixes, m, n - 1);
    }
  }

  // --- Settling --------------------------------------------------------------------------------

  /** Since a break, the threshold has gone down by one for every effective fix. */
  lemma {:induction false} ThresholdCountsDown(e: Estimator, fixes: seq<Fix>, i: nat)
    requires i < |fixes| && BreakAt(e, fixes, i)
    requires forall k :: i < k < |fixes| ==> !BreakAt(e, fixes, k)
    ensures Run(e, fixes).threshold == 5 - CountEffective(fixes[i..])
    decreases |fixes|
  {
    var n := |fixes| - 1;
    assert fixes[i..][..n - i] == fixes[..n][i..];
    if i < n {
      PrefixAgrees(e, fixes, n);
      assert fixes[i..][n - i] == fixes[n];
      ThresholdCountsDown(e, fixes[..n], i);
      assert !BreakAt(e, fixes, n);
    } else {
      assert fixes[i..] == [fixes[i]];
    }
  }

  /**
   After a cadence break, the breaking fix and the next four effective fixes fall back to the
   assumed travel time, and the next one (the sixth) anchors; while in cadence no other does.
   */
  lemma SixthFixAnchors(e: Estimator, fixes: seq<Fix>, i: nat, n: nat)
    requires i <= n < |fixes| && BreakAt(e, fixes, i) && Effective(fixes[n])
    requires forall k :: i < k <= n ==> !BreakAt(e, fixes, k)
    ensures var count := CountEffective(fixes[i..n]);
            && (AnchorsAt(e, fixes, n) <==> count == 5)
            && (count <= 5 ==> Result(e, fixes, n) == fixes[n].clock.boot - e.travel)
  {
    TravelKept(e, fixes[..n]);
    if i < n {
      PrefixAgrees(e, fixes, n);
      ThresholdCountsDown(e, fixes[..n], i);
      assert !BreakAt(e, fixes, n);
      assert fixes[..n][i..] == fixes[i..n];
    }
  }

  lemma {:induction false} FreshCountsDown(travel: int, fixes: seq<Fix>)
    requires forall k :: 0 <= k < |fixes| ==> !BreakAt(Fresh(travel), fixes, k)
    ensures Run(Fresh(travel), fixes).threshold == 5 - CountEffective(fixes)
  {
    if fixes != [] {
      var n := |fixes| - 1;
      PrefixAgrees(Fresh(travel), fixes, n);
      FreshCountsDown(travel, fixes[..n]);
      assert !BreakAt(Fresh(travel), fixes, n);
    }
  }

  /**
   After a reset it is the same while no fix breaks the cadence, which one without a period never
   does: the first five effective fixes fall back to the assumed travel time and the sixth anchors.
   */
  lemma SixthFixAfterResetAnchors(travel: int, fixes: seq<Fix>, n: nat)
    requires n < |fixes| && Effective(fixes[n])
    requires forall k :: 0 <= k <= n ==> fixes[k].tbf == 0 || !BreakAt(Fresh(travel), fixes, k)
    ensures var count := CountEffective(fixes[..n]);
            && (AnchorsAt(Fresh(travel), fixes, n) <==> count == 5)
            && (count <= 5 ==> Result(Fresh(travel), fixes, n) == fixes[n].clock.boot - travel)
  {
    TravelKept(Fresh(travel), fixes[..n]);
    assert forall k :: 0 <= k <= n ==> !BreakAt(Fresh(travel), fixes, k);
    PrefixAgrees(Fresh(travel), fixes, n);
    FreshCountsDown(travel, fixes[..n]);
    assert !BreakAt(Fresh(travel), fixes, n);
  }
}
