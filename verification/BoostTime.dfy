/**
 Clock and duration arithmetic of the interaction boost: the millisecond difference of two
 monotonic clock readings, and the clamping of a requested duration, with the C++ integer
 widths and sign conversions spelled out.
 */
module BoostTime {
  import opened CppInt

  const NSEC_IN_SEC: int := 1_000_000_000
  const NSEC_IN_MSEC: int := 1_000_000
  const MSEC_IN_SEC: int := 1000
  const SIZE_T_RANGE: int := 0x1_0000_0000_0000_0000
  const UINT32_RANGE: int := 0x1_0000_0000
  const INT32_LIMIT: int := 0x8000_0000
  /** Seconds since boot whose millisecond count still fits in a signed 64-bit long. */
  const SEC_LIMIT: int := 0x20_0000_0000_0000

  datatype Timespec = Timespec(sec: int, nsec: int)

  predicate ValidTime(t: Timespec) {
    0 <= t.sec < SEC_LIMIT && 0 <= t.nsec < NSEC_IN_SEC
  }

  function Nanos(t: Timespec): int {
    t.sec * NSEC_IN_SEC + t.nsec
  }

  /** The value `CalcTimespecDiffMs` leaves in its `size_t` accumulator. */
  function ElapsedMs(start: Timespec, end: Timespec): nat {
    ((end.sec - start.sec) * MSEC_IN_SEC + TruncDiv(end.nsec - start.nsec, NSEC_IN_MSEC)) % SIZE_T_RANGE
  }

  method CalcTimespecDiffMs(start: Timespec, end: Timespec) returns (diffInMs: nat)
    ensures diffInMs == ElapsedMs(start, end)
    ensures ValidTime(start) && ValidTime(end) && Nanos(start) <= Nanos(end) ==>
              (diffInMs - 1) * NSEC_IN_MSEC < Nanos(end) - Nanos(start) < (diffInMs + 1) * NSEC_IN_MSEC
  {
    diffInMs := 0;
    diffInMs := (diffInMs + (end.sec - start.sec) * MSEC_IN_SEC) % SIZE_T_RANGE;
    ModAbsorbs((end.sec - start.sec) * MSEC_IN_SEC, TruncDiv(end.nsec - start.nsec, NSEC_IN_MSEC));
    diffInMs := (diffInMs + TruncDiv(end.nsec - start.nsec, NSEC_IN_MSEC)) % SIZE_T_RANGE;
    if ValidTime(start) && ValidTime(end) && Nanos(start) <= Nanos(end) {
      ElapsedWithinOneMs(start, end);
    }
  }

  lemma ModAbsorbs(a: int, b: int)
    ensures (a % SIZE_T_RANGE + b) % SIZE_T_RANGE == (a + b) % SIZE_T_RANGE
  {
    var q := a / SIZE_T_RANGE;
    assert a == q * SIZE_T_RANGE + a % SIZE_T_RANGE;
    var x := a % SIZE_T_RANGE + b;
    assert a + b == q * SIZE_T_RANGE + x;
    assert (a + b) / SIZE_T_RANGE == q + x / SIZE_T_RANGE;
  }

  /**
   The computed difference is within one millisecond of the true elapsed time. It rounds down
   when the nanosecond parts grow and UP when they shrink, because the C++ division truncates
   toward zero.
   */
  lemma ElapsedWithinOneMs(start: Timespec, end: Timespec)
    requires ValidTime(start) && ValidTime(end)
    requires Nanos(start) <= Nanos(end)
    ensures var diff, truth := ElapsedMs(start, end), (end.sec - start.sec) * 1_000_000_000 + end.nsec - start.nsec;
            if start.nsec <= end.nsec
            then diff * 1_000_000 <= truth < (diff + 1) * 1_000_000
            else (diff - 1) * 1_000_000 < truth <= diff * 1_000_000
  {
    var ds, dn := end.sec - start.sec, end.nsec - start.nsec;
    var q := TruncDiv(dn, NSEC_IN_MSEC);
    TruncDivLoses(dn, NSEC_IN_MSEC);
    hide TruncDiv;
    assert ds >= 0 && (dn < 0 ==> ds >= 1) && -1000 < q < 1000;
    var diff := ds * MSEC_IN_SEC + q;
    assert 0 <= diff < SIZE_T_RANGE;
    assert diff % SIZE_T_RANGE == diff;
  }

  /** Read once from system properties; `uint32_t` each. */
  datatype Tunables = Tunables(idleSupport: bool, minMs: nat, maxMs: nat, offsetMs: nat)

  predicate ValidTunables(t: Tunables) {
    t.minMs <= t.maxMs < INT32_LIMIT && t.offsetMs < INT32_LIMIT
  }

  predicate IsInt32(x: int) {
    -INT32_LIMIT <= x < INT32_LIMIT
  }

  /**
   `duration + kDurationOffsetMs` mixes `int32_t` with `uint32_t`, and both comparisons that
   follow are unsigned, so a negative sum is a huge one.
   */
  function FinalDuration(t: Tunables, duration: int): int {
    var input := (duration + t.offsetMs) % UINT32_RANGE;
    if input > t.maxMs then t.maxMs
    else if input > t.minMs then input
    else t.minMs
  }

  function Clamp(lo: int, hi: int, x: int): int
    requires lo <= hi
  {
    if x > hi then hi else if x > lo then x else lo
  }

  /**
   A final duration always lies in the configured range, but it is the request plus offset
   clamped into that range exactly when the sum is not negative (or the range is one point): a
   negative sum gets the longest boost instead of the shortest.
   */
  lemma FinalDurationIsClampUnlessNegative(t: Tunables, duration: int)
    requires ValidTunables(t) && IsInt32(duration)
    ensures t.minMs <= FinalDuration(t, duration) <= t.maxMs
    ensures FinalDuration(t, duration) == Clamp(t.minMs, t.maxMs, duration + t.offsetMs)
            <==> (0 <= duration + t.offsetMs || t.minMs == t.maxMs)
    ensures duration + t.offsetMs < 0 ==> FinalDuration(t, duration) == t.maxMs
  {
    var sum := duration + t.offsetMs;
    if sum < 0 {
      assert sum % UINT32_RANGE == sum + UINT32_RANGE;
    }
  }

  /** With the default tunables a request of -1000 ms is boosted for longest instead of shortest. */
  lemma NegativeRequestBoostsLongest()
    ensures var t := Tunables(true, 1400, 5650, 650);
            && ValidTunables(t) && IsInt32(-1000)
            && FinalDuration(t, -1000) == 5650 && Clamp(t.minMs, t.maxMs, -1000 + t.offsetMs) == 1400
  {
    assert (-1000 + 650) % UINT32_RANGE == UINT32_RANGE - 350;
  }
}
