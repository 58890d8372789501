/**
 Throttling severity with hysteresis, and the kernel trip window programmed from it.

 Temperatures and thresholds are in the sensor's raw units (the source divides both by the same
 factor before comparing them); NaN is `Unknown`.
 */
module Thermal {

  const NONE: nat := 0
  const SEVERE: nat := 3
  const SHUTDOWN: nat := 6
  const LEVELS: nat := 7
  const DEFAULT_HYSTERESIS: int := 5000

  datatype Threshold = Unknown | At(raw: int)

  /** The thresholds of one sensor, indexed by severity. */
  datatype Ramp = Ramp(positive: bool, hot: seq<Threshold>, cold: seq<Threshold>)

  predicate ValidRamp(r: Ramp) {
    |r.hot| == LEVELS && |r.cold| == LEVELS
  }

  function Level(r: Ramp, idx: nat): Threshold
    requires ValidRamp(r) && idx < LEVELS
  {
    if r.positive then r.hot[idx] else r.cold[idx]
  }

  /** The reading is at or beyond the level, give or take `slack`. */
  predicate Hit(r: Ramp, idx: nat, temp: int, slack: int)
    requires ValidRamp(r) && idx < LEVELS
  {
    && Level(r, idx).At?
    && if r.positive then temp >= Level(r, idx).raw - slack else temp <= Level(r, idx).raw + slack
  }

  /** The level the sensor is already at is left only once the hysteresis is cleared. */
  predicate Holds(r: Ramp, current: nat, idx: nat, temp: int)
    requires ValidRamp(r) && idx < LEVELS
  {
    Hit(r, idx, temp, if idx == current then DEFAULT_HYSTERESIS else 0)
  }

  /** `sev` is the highest level that holds, or NONE when there is none. */
  ghost predicate IsSeverity(r: Ramp, current: nat, temp: int, sev: nat)
    requires ValidRamp(r)
  {
    && sev < LEVELS
    && (sev != NONE ==> Holds(r, current, sev, temp))
    && forall idx :: sev < idx < LEVELS ==> !Holds(r, current, idx, temp)
  }

  function SeverityFrom(r: Ramp, current: nat, temp: int, top: nat): (sev: nat)
    requires ValidRamp(r) && top < LEVELS
    ensures sev <= top
    ensures sev != NONE ==> Holds(r, current, sev, temp)
    ensures forall idx :: sev < idx <= top ==> !Holds(r, current, idx, temp)
  {
    if top == NONE || Holds(r, current, top, temp) then top
    else SeverityFrom(r, current, temp, top - 1)
  }

  function Severity(r: Ramp, current: nat, temp: int): (sev: nat)
    requires ValidRamp(r)
    ensures IsSeverity(r, current, temp, sev)
  {
    SeverityFrom(r, current, temp, SHUTDOWN)
  }

  lemma SeverityIsUnique(r: Ramp, current: nat, temp: int, sev: nat)
    requires ValidRamp(r) && IsSeverity(r, current, temp, sev)
    ensures sev == Severity(r, current, temp)
  {
    var other := Severity(r, current, temp);
    if sev < other {
      assert !Holds(r, current, other, temp);
    }
  }

  /** What `initialize_sensor` reads from the sensor's configuration. */
  datatype Config = Config(percentage: bool, throttle: int, shutdown: int, positiveRamp: bool)

  function ConfiguredLevels(raw: Config, forPositive: bool): seq<Threshold> {
    seq(LEVELS, idx =>
      if raw.positiveRamp != forPositive then Unknown
      else if idx == SEVERE && raw.throttle != 0 then At(raw.throttle)
      else if idx == SHUTDOWN && raw.shutdown != 0 then At(raw.shutdown)
      else Unknown)
  }

  class ThermSensor {
    const positiveThresh: bool
    const mulFactor: int
    const hotThresholds: array<Threshold>
    const coldThresholds: array<Threshold>
    var value: int
    var throttlingStatus: nat
    var lastThrottleStatus: nat

    ghost predicate Valid()
      reads this, hotThresholds, coldThresholds
    {
      && hotThresholds.Length == LEVELS && coldThresholds.Length == LEVELS
      && hotThresholds != coldThresholds
      && (mulFactor == 1 || mulFactor == 1000)
      && throttlingStatus < LEVELS
         // A level the sensor is at is a level it has.
      && (throttlingStatus != NONE ==> Level(View(), throttlingStatus).At?)
    }

    ghost function View(): Ramp
      reads hotThresholds, coldThresholds
    {
      Ramp(positiveThresh, hotThresholds[..], coldThresholds[..])
    }

    constructor (cfg: Config)
      ensures Valid() && fresh(hotThresholds) && fresh(coldThresholds)
      ensures throttlingStatus == lastThrottleStatus == NONE
      ensures mulFactor == if cfg.percentage then 1 else 1000
      ensures View() == ConfiguredRamp(cfg)
    {
      mulFactor := if cfg.percentage then 1 else 1000;
      positiveThresh := cfg.positiveRamp;
      throttlingStatus, lastThrottleStatus := NONE, NONE;
      value := 0;
      var hot, cold := new Threshold[LEVELS], new Threshold[LEVELS];
      hotThresholds, coldThresholds := hot, cold;
      new;
      for idx := 0 to LEVELS
        invariant throttlingStatus == lastThrottleStatus == NONE
        invariant forall k :: 0 <= k < idx ==> hot[k] == Unknown && cold[k] == Unknown
      {
        hot[idx], cold[idx] := Unknown, Unknown;
      }
      if cfg.throttle != 0 && cfg.positiveRamp {
        hot[SEVERE] := At(cfg.throttle);
      } else if cfg.throttle != 0 && !cfg.positiveRamp {
        cold[SEVERE] := At(cfg.throttle);
      }
      if cfg.shutdown != 0 && cfg.positiveRamp {
        hot[SHUTDOWN] := At(cfg.shutdown);
      } else if cfg.shutdown != 0 && !cfg.positiveRamp {
        cold[SHUTDOWN] := At(cfg.shutdown);
      }
      assert hot[..] == ConfiguredLevels(cfg, true);
      assert cold[..] == ConfiguredLevels(cfg, false);
    }

    /** Returns -1 when the severity does not change, and the new severity otherwise. */
    method EstimateSeverity() returns (changed: int)
      requires Valid()
      modifies this`throttlingStatus, this`lastThrottleStatus
      ensures Valid() && value == old(value) && View() == old(View())
      ensures throttlingStatus == Severity(View(), old(throttlingStatus), value)
      ensures changed == if throttlingStatus == old(throttlingStatus) then -1 else throttlingStatus
      ensures lastThrottleStatus ==
              if throttlingStatus == old(throttlingStatus) then old(lastThrottleStatus) else old(throttlingStatus)
    {
      ghost var r := View();
      var severity := NONE;
      var hysteresis := DEFAULT_HYSTERESIS / mulFactor * mulFactor;
      assert hysteresis == DEFAULT_HYSTERESIS;
      var idx: int := SHUTDOWN;
      while idx >= 0
        invariant -1 <= idx <= SHUTDOWN
        invariant forall k :: idx < k < LEVELS ==> !Holds(r, throttlingStatus, k, value)
        invariant unchanged(this)
      {
        if idx == throttlingStatus {
          if (positiveThresh && hotThresholds[idx].At? && value >= hotThresholds[idx].raw - hysteresis)
             || (!positiveThresh && coldThresholds[idx].At? && value <= coldThresholds[idx].raw + hysteresis) {
            break;
          }
          idx := idx - 1;
          continue;
        }
        if (positiveThresh && hotThresholds[idx].At? && value >= hotThresholds[idx].raw)
           || (!positiveThresh && coldThresholds[idx].At? && value <= coldThresholds[idx].raw) {
          break;
        }
        idx := idx - 1;
      }
      if idx >= 0 {
        severity := idx;
      }
      SeverityIsUnique(r, throttlingStatus, value, severity);
      if severity == throttlingStatus {
        return -1;
      }
      lastThrottleStatus := throttlingStatus;
      throttlingStatus := severity;
      return severity;
    }

    /**
     The two numbers `initThreshold` writes to the thermal zone; nothing for a cold ramp, nor when
     the zone's policy is not the user-space one. `nanAsInt` is whatever storing NaN in an `int`
     yields: `isnan` of an `int` is never true, so that value is used when no higher level exists.
     */
    method InitThreshold(userSpacePolicy: bool, nanAsInt: int) returns (trip: Written, hyst: Written)
      requires Valid()
      ensures !positiveThresh || !userSpacePolicy ==> trip == hyst == Nothing
      ensures positiveThresh && userSpacePolicy ==>
                && trip == Value(TripOf(View(), throttlingStatus, nanAsInt))
                && hyst == if throttlingStatus == NONE then Nothing
                           else Value(trip.v - Level(View(), throttlingStatus).raw + DEFAULT_HYSTERESIS)
    {
      trip, hyst := Nothing, Nothing;
      if !positiveThresh || !userSpacePolicy {
        return;
      }
      var nextTrip := nanAsInt;
      ghost var r := View();
      var idx := 0;
      while idx <= SHUTDOWN
        invariant 0 <= idx <= LEVELS
        invariant nextTrip == nanAsInt
        invariant NextLevel(r, throttlingStatus, 0) == NextLevel(r, throttlingStatus, idx)
      {
        if hotThresholds[idx].Unknown? || idx <= throttlingStatus {
          idx := idx + 1;
          continue;
        }
        nextTrip := hotThresholds[idx].raw;
        break;
      }
      trip := Value(nextTrip);
      if throttlingStatus != NONE {
        var currTrip := hotThresholds[throttlingStatus].raw;
        hyst := Value((nextTrip - currTrip) + DEFAULT_HYSTERESIS);
      }
    }
  }

  datatype Written = Nothing | Value(v: int)

  /** The first defined level above `current` from `idx` on; `LEVELS` when there is none. */
  function NextLevel(r: Ramp, current: nat, idx: nat): (next: nat)
    requires ValidRamp(r) && idx <= LEVELS
    ensures idx <= next <= LEVELS
    ensures next < LEVELS ==> Level(r, next).At? && next > current
    ensures forall k :: idx <= k < next ==> k <= current || Level(r, k).Unknown?
    decreases LEVELS - idx
  {
    if idx == LEVELS || (idx > current && Level(r, idx).At?) then idx
    else NextLevel(r, current, idx + 1)
  }

  function TripOf(r: Ramp, current: nat, nanAsInt: int): int
    requires ValidRamp(r)
  {
    var next := NextLevel(r, current, 0);
    if next < LEVELS then Level(r, next).raw else nanAsInt
  }

  // --- What severity means -------------------------------------------------------------------

  /**
   On a hot ramp the severity is the highest defined level whose threshold the reading has
   reached, or is still within 5000 below if the sensor is at that level already; NONE without one.
   */
  lemma HotSeverityIff(r: Ramp, current: nat, temp: int, sev: nat)
    requires ValidRamp(r) && r.positive && sev < 7
    ensures Severity(r, current, temp) == sev <==>
            && (forall k :: sev < k < 7 && r.hot[k].At? ==>
                  temp < if k == current then r.hot[k].raw - 5000 else r.hot[k].raw)
            && (sev != 0 ==> r.hot[sev].At?
                             && temp >= if sev == current then r.hot[sev].raw - 5000 else r.hot[sev].raw)
  {
    if IsSeverity(r, current, temp, sev) {
      SeverityIsUnique(r, current, temp, sev);
    }
    assert forall k :: 0 <= k < 7 ==> Level(r, k) == r.hot[k];
    assert forall k :: sev < k < 7 ==>
      (Holds(r, current, k, temp) <==>
       r.hot[k].At? && temp >= if k == current then r.hot[k].raw - 5000 else r.hot[k].raw);
  }

  /**
   On a cold ramp it is the highest defined level whose threshold the reading has fallen to, or is
   still within 5000 above if the sensor is at that level already; NONE without one.
   */
  lemma ColdSeverityIff(r: Ramp, current: nat, temp: int, sev: nat)
    requires ValidRamp(r) && !r.positive && sev < 7
    ensures Severity(r, current, temp) == sev <==>
            && (forall k :: sev < k < 7 && r.cold[k].At? ==>
                  temp > if k == current then r.cold[k].raw + 5000 else r.cold[k].raw)
            && (sev != 0 ==> r.cold[sev].At?
                             && temp <= if sev == current then r.cold[sev].raw + 5000 else r.cold[sev].raw)
  {
    if IsSeverity(r, current, temp, sev) {
      SeverityIsUnique(r, current, temp, sev);
    }
    assert forall k :: 0 <= k < 7 ==> Level(r, k) == r.cold[k];
    assert forall k :: sev < k < 7 ==>
      (Holds(r, current, k, temp) <==>
       r.cold[k].At? && temp <= if k == current then r.cold[k].raw + 5000 else r.cold[k].raw);
  }

  /** A cold sensor at NONE stays there exactly while the reading is above every defined threshold. */
  lemma ColdStaysNoneIff(r: Ramp, temp: int)
    requires ValidRamp(r) && !r.positive
    ensures Severity(r, 0, temp) == 0 <==> forall k :: 0 < k < 7 && r.cold[k].At? ==> temp > r.cold[k].raw
  {
    ColdSeverityIff(r, 0, temp, 0);
    hide Severity, Level;
  }

  predicate Descending(r: Ramp)
    requires ValidRamp(r)
  {
    forall i, j :: 0 <= i < j < LEVELS && r.cold[i].At? && r.cold[j].At? ==> r.cold[i].raw >= r.cold[j].raw
  }

  /**
   With descending cold thresholds and `next` the first defined level above, a cold sensor stays
   where it is exactly for the readings above the next threshold and at most 5000 above its own.
   */
  lemma ColdRestsIff(r: Ramp, current: nat, next: nat, temp: int)
    requires ValidRamp(r) && !r.positive && Descending(r)
    requires 0 < current < next < 7 && r.cold[current].At? && r.cold[next].At?
    requires forall k :: current < k < next ==> r.cold[k].Unknown?
    ensures Severity(r, current, temp) == current <==> r.cold[next].raw < temp <= r.cold[current].raw + 5000
  {
    ColdSeverityIff(r, current, temp, current);
    hide Severity, Level;
    assert forall k :: next < k < 7 && r.cold[k].At? ==> r.cold[next].raw >= r.cold[k].raw;
  }

  /** From the same level, a higher reading never means less on a hot ramp, nor more on a cold one. */
  lemma SeverityIsMonotone(r: Ramp, current: nat, lower: int, higher: int)
    requires ValidRamp(r) && lower <= higher
    ensures r.positive ==> Severity(r, current, lower) <= Severity(r, current, higher)
    ensures !r.positive ==> Severity(r, current, lower) >= Severity(r, current, higher)
  {
    var below, above := Severity(r, current, lower), Severity(r, current, higher);
    assert r.positive && below != NONE ==> Holds(r, current, below, higher);
    assert !r.positive && above != NONE ==> Holds(r, current, above, lower);
  }

  function ConfiguredRamp(cfg: Config): Ramp {
    Ramp(cfg.positiveRamp, ConfiguredLevels(cfg, true), ConfiguredLevels(cfg, false))
  }

  /**
   A configured sensor at NONE: SHUTDOWN beyond its shutdown threshold, else SEVERE beyond its
   throttling threshold, else NONE; a threshold configured as 0 is none.
   */
  lemma ConfiguredSeverity(cfg: Config, temp: int)
    ensures Severity(ConfiguredRamp(cfg), 0, temp) ==
            if cfg.shutdown != 0 && (if cfg.positiveRamp then temp >= cfg.shutdown else temp <= cfg.shutdown)
            then 6
            else if cfg.throttle != 0 && (if cfg.positiveRamp then temp >= cfg.throttle else temp <= cfg.throttle)
            then 3
            else 0
  {
    var r := ConfiguredRamp(cfg);
    var sev := Severity(r, 0, temp);
    var levels := if cfg.positiveRamp then r.hot else r.cold;
    assert levels[6] == if cfg.shutdown != 0 then At(cfg.shutdown) else Unknown;
    assert levels[3] == if cfg.throttle != 0 then At(cfg.throttle) else Unknown;
    assert forall k :: 0 <= k < 7 && k != 3 && k != 6 ==> levels[k].Unknown?;
    hide Severity, ConfiguredRamp;
    if cfg.positiveRamp {
      HotSeverityIff(r, 0, temp, sev);
    } else {
      ColdSeverityIff(r, 0, temp, sev);
    }
  }

  /** The battery voltage sensor: a falling ramp with thresholds at 3200 and 3000. */
  lemma FallingBattery()
    ensures var r := ConfiguredRamp(Config(true, 3200, 3000, false));
            Severity(r, 0, 4000) == 0 && Severity(r, 0, 3100) == 3 && Severity(r, 0, 2900) == 6
  {
    var cfg := Config(true, 3200, 3000, false);
    ConfiguredSeverity(cfg, 4000);
    ConfiguredSeverity(cfg, 3100);
    ConfiguredSeverity(cfg, 2900);
  }

  // --- Traces ----------------------------------------------------------------------------

  function Final(r: Ramp, current: nat, temps: seq<int>): nat
    requires ValidRamp(r)
    decreases |temps|
  {
    if temps == [] then current
    else Severity(r, Final(r, current, temps[..|temps| - 1]), temps[|temps| - 1])
  }

  /** How many of the evaluations report a change. */
  function Notifications(r: Ramp, current: nat, temps: seq<int>): nat
    requires ValidRamp(r)
    decreases |temps|
  {
    if temps == [] then 0
    else
      var before := Final(r, current, temps[..|temps| - 1]);
      Notifications(r, current, temps[..|temps| - 1])
      + if Severity(r, before, temps[|temps| - 1]) == before then 0 else 1
  }

  /** Evaluating the same reading again reports no change. */
  lemma ReevaluationIsQuiet(r: Ramp, current: nat, temp: int)
    requires ValidRamp(r) && current < LEVELS
    ensures var sev := Severity(r, current, temp); Severity(r, sev, temp) == sev
  {
    var sev := Severity(r, current, temp);
    var again := Severity(r, sev, temp);
    if again > sev {
      assert !Holds(r, current, again, temp);
    }
    if again < sev {
      assert Holds(r, current, sev, temp);
      assert Holds(r, sev, sev, temp);
    }
  }

  /** All readings lie within less than the hysteresis of each other. */
  predicate NarrowSpread(temps: seq<int>) {
    forall i, j :: 0 <= i < |temps| && 0 <= j < |temps| ==> temps[i] - temps[j] < DEFAULT_HYSTERESIS
  }

  /**
   Over a trace narrower than the hysteresis, the severity reached is either still the first
   one with nothing reported, or one that some reading of the trace really reached.
   */
  lemma {:induction false} ReachedByTrace(r: Ramp, current: nat, temps: seq<int>)
    requires ValidRamp(r) && current < LEVELS
    ensures var sev := Final(r, current, temps);
            sev < LEVELS &&
            ((sev == current && Notifications(r, current, temps) == 0)
             || sev == NONE
             || exists t :: t in temps && Hit(r, sev, t, 0))
    decreases |temps|
  {
    if temps != [] {
      var init, last := temps[..|temps| - 1], temps[|temps| - 1];
      ReachedByTrace(r, current, init);
      var before := Final(r, current, init);
      if Final(r, current, temps) == before && before != NONE && (exists t :: t in init && Hit(r, before, t, 0)) {
        var t :| t in init && Hit(r, before, t, 0);
        assert t in temps && Hit(r, before, t, 0);
      }
    }
  }

  /** Once something has been reported, the severity no longer drops. */
  lemma NoDropOnceMoved(r: Ramp, current: nat, temps: seq<int>)
    requires ValidRamp(r) && current < LEVELS
    requires temps != [] && NarrowSpread(temps)
    requires Notifications(r, current, temps[..|temps| - 1]) > 0
    ensures Final(r, current, temps[..|temps| - 1]) <= Final(r, current, temps)
  {
    var init, last := temps[..|temps| - 1], temps[|temps| - 1];
    var before := Final(r, current, init);
    ReachedByTrace(r, current, init);
    if before != NONE {
      var t :| t in init && Hit(r, before, t, 0);
      var i :| 0 <= i < |init| && init[i] == t;
      assert temps[i] == t && temps[|temps| - 1] == last;
      assert Holds(r, before, before, last);
    }
  }

  /**
   For any trace narrower than the hysteresis, whatever its length: a drop happens only as the
   very first report (so at most once, and from the severity it started with), and the number
   of reports is at most the number of levels. After the first report each further one climbs.
   */
  lemma {:induction false} BoundedNotifications(r: Ramp, current: nat, temps: seq<int>)
    requires ValidRamp(r) && current < LEVELS
    requires NarrowSpread(temps)
    ensures var n := Notifications(r, current, temps);
            n == 0 || n <= 1 + Final(r, current, temps) <= LEVELS
    ensures temps != [] && Final(r, current, temps) < Final(r, current, temps[..|temps| - 1]) ==>
              Final(r, current, temps[..|temps| - 1]) == current && Notifications(r, current, temps) == 1
    decreases |temps|
  {
    if temps != [] {
      var init := temps[..|temps| - 1];
      BoundedNotifications(r, current, init);
      if Notifications(r, current, init) > 0 {
        NoDropOnceMoved(r, current, temps);
      } else {
        QuietMeansSame(r, current, init);
      }
    }
  }

  lemma {:induction false} QuietMeansSame(r: Ramp, current: nat, temps: seq<int>)
    requires ValidRamp(r)
    requires Notifications(r, current, temps) == 0
    ensures Final(r, current, temps) == current
    decreases |temps|
  {
    if temps != [] {
      QuietMeansSame(r, current, temps[..|temps| - 1]);
    }
  }

  // --- The programmed window ---------------------------------------------------------------

  predicate Ascending(r: Ramp)
    requires ValidRamp(r)
  {
    forall i, j :: 0 <= i < j < LEVELS && Level(r, i).At? && Level(r, j).At? ==> Level(r, i).raw <= Level(r, j).raw
  }

  predicate LevelAbove(r: Ramp, current: nat)
    requires ValidRamp(r)
  {
    exists idx :: current < idx < LEVELS && Level(r, idx).At?
  }

  /** The reading lies where the programmed trip and hysteresis tell the kernel to stay quiet. */
  predicate InWindow(r: Ramp, current: nat, temp: int, nanAsInt: int)
    requires ValidRamp(r) && NONE < current < LEVELS && Level(r, current).At?
  {
    var trip := TripOf(r, current, nanAsInt);
    var hyst := trip - Level(r, current).raw + DEFAULT_HYSTERESIS;
    trip - hyst <= temp < trip
  }

  /** For ascending hot thresholds the severity is unchanged exactly inside the window. */
  lemma WindowMatchesSeverity(r: Ramp, current: nat, temp: int, nanAsInt: int)
    requires ValidRamp(r) && r.positive && Ascending(r)
    requires NONE < current < LEVELS && Level(r, current).At?
    requires LevelAbove(r, current)
    ensures Severity(r, current, temp) == current <==> InWindow(r, current, temp, nanAsInt)
  {
    var next := NextLevel(r, current, 0);
    var above :| current < above < LEVELS && Level(r, above).At?;
    assert next <= above;
    if temp >= Level(r, next).raw {
      assert Holds(r, current, next, temp);
    }
    if temp >= Level(r, current).raw - DEFAULT_HYSTERESIS {
      assert Holds(r, current, current, temp);
    }
  }

  /** With no defined level above, only the lower edge of the window matters. */
  lemma UnchangedAtTopLevel(r: Ramp, current: nat, temp: int)
    requires ValidRamp(r) && r.positive
    requires NONE < current < LEVELS && Level(r, current).At?
    requires !LevelAbove(r, current)
    ensures Severity(r, current, temp) == current <==> temp >= Level(r, current).raw - DEFAULT_HYSTERESIS
  {
    if temp >= Level(r, current).raw - DEFAULT_HYSTERESIS {
      assert Holds(r, current, current, temp);
    }
  }

  /**
   Whatever integer NaN turns into, the window is right for every reading exactly when there is
   a defined level above the current one.
   */
  lemma WindowRightIffLevelAbove(r: Ramp, current: nat, nanAsInt: int)
    requires ValidRamp(r) && r.positive && Ascending(r)
    requires NONE < current < LEVELS && Level(r, current).At?
    ensures (forall temp :: Severity(r, current, temp) == current <==> InWindow(r, current, temp, nanAsInt))
            <==> LevelAbove(r, current)
  {
    if LevelAbove(r, current) {
      forall temp
        ensures Severity(r, current, temp) == current <==> InWindow(r, current, temp, nanAsInt)
      {
        WindowMatchesSeverity(r, current, temp, nanAsInt);
      }
    } else {
      var edge := Level(r, current).raw - DEFAULT_HYSTERESIS;
      var temp := if nanAsInt > edge then nanAsInt else edge;
      UnchangedAtTopLevel(r, current, temp);
      assert NextLevel(r, current, 0) == LEVELS;
      assert !InWindow(r, current, temp, nanAsInt);
    }
  }

  /**
   Every configured hot sensor with a shutdown threshold gets there: one reading at the threshold
   takes it to its top level, where the window programmed for it is wrong for some reading.
   */
  lemma TopLevelWindowIsWrong(cfg: Config, nanAsInt: int) returns (temp: int)
    requires cfg.positiveRamp && cfg.shutdown != 0
    ensures var r := ConfiguredRamp(cfg);
            && Final(r, NONE, [cfg.shutdown]) == SHUTDOWN
            && Severity(r, SHUTDOWN, temp) == SHUTDOWN && !InWindow(r, SHUTDOWN, temp, nanAsInt)
  {
    var r, edge := ConfiguredRamp(cfg), cfg.shutdown - DEFAULT_HYSTERESIS;
    assert Level(r, SHUTDOWN) == At(cfg.shutdown);
    assert [cfg.shutdown][..0] == [];
    assert Holds(r, NONE, SHUTDOWN, cfg.shutdown);
    temp := if nanAsInt > edge then nanAsInt else edge;
    UnchangedAtTopLevel(r, SHUTDOWN, temp);
    assert NextLevel(r, SHUTDOWN, 0) == LEVELS;
  }

  /** At NONE only the trip is programmed, and it is exactly where the severity starts to rise. */
  lemma TripMatchesFirstRise(r: Ramp, temp: int, nanAsInt: int)
    requires ValidRamp(r) && r.positive && Ascending(r)
    requires LevelAbove(r, NONE)
    ensures Severity(r, NONE, temp) == NONE <==> temp < TripOf(r, NONE, nanAsInt)
  {
    var next := NextLevel(r, NONE, 0);
    var above :| NONE < above < LEVELS && Level(r, above).At?;
    assert next <= above;
    if temp >= Level(r, next).raw {
      assert Holds(r, NONE, next, temp);
    }
  }
}
