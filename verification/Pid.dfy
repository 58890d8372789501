/**
 The PID controller of a hint session: one loop over a batch of reported durations that feeds
 three windows of different lengths and leaves a clamped integral and the last error behind.
 Gains are reals; durations and errors are exact integers.
 */
module Pid {
  import opened CppInt

  const NS_PER_STEP: int := 100_000

  function NsTo100Us(ns: int): int {
    TruncDiv(ns, NS_PER_STEP)
  }

  datatype Config = Config(
    windowP: nat, windowI: nat, windowD: nat,
    po: real, pu: real, i: real, do_: real, du: real,
    integralHigh: int, integralLow: int)

  /** The running values of the loop. */
  datatype Acc = Acc(integral: int, previous: int, errSum: int, derivativeSum: int)

  function WindowStart(window: nat, length: nat): nat {
    if window == 0 || window > length then 0 else length - window
  }

  function LoopStart(c: Config, length: nat): nat {
    Min(WindowStart(c.windowP, length), Min(WindowStart(c.windowI, length), WindowStart(c.windowD, length)))
  }

  function Errors(durations: seq<int>, target: int): seq<int> {
    seq(|durations|, k requires 0 <= k < |durations| => NsTo100Us(durations[k] - target))
  }

  function Step(c: Config, a: Acc, error: int, k: nat, length: nat, dt: int): Acc {
    Acc(if k >= WindowStart(c.windowI, length)
        then Max(c.integralLow, Min(c.integralHigh, a.integral + error * dt)) else a.integral,
        error,
        if k >= WindowStart(c.windowP, length) then a.errSum + error else a.errSum,
        if k >= WindowStart(c.windowD, length) then a.derivativeSum + (error - a.previous) else a.derivativeSum)
  }

  /** The loop over all errors from its start up to, not including, `n`. */
  function Loop(c: Config, a: Acc, errors: seq<int>, n: nat, dt: int): Acc
    requires n <= |errors|
  {
    if n <= LoopStart(c, |errors|) then a
    else Step(c, Loop(c, a, errors, n - 1, dt), errors[n - 1], n - 1, |errors|, dt)
  }

  lemma LoopBegins(c: Config, a: Acc, errors: seq<int>, dt: int)
    ensures LoopStart(c, |errors|) <= |errors| && Loop(c, a, errors, LoopStart(c, |errors|), dt) == a
  {
  }

  lemma LoopOneMore(c: Config, a: Acc, errors: seq<int>, n: nat, dt: int)
    requires LoopStart(c, |errors|) <= n < |errors|
    ensures Loop(c, a, errors, n + 1, dt) == Step(c, Loop(c, a, errors, n, dt), errors[n], n, |errors|, dt)
  {
  }

  function Batch(c: Config, integral: int, previous: int, errors: seq<int>, dt: int): Acc {
    Loop(c, Acc(integral, previous, 0, 0), errors, |errors|, dt)
  }

  /** A weighted sum, as real numbers, cast to an integer. */
  function Cut(gain: real, sum: int, divisor: real): int
    requires divisor != 0.0
  {
    Trunc(gain * sum as real / divisor)
  }

  function CutTwice(gain: real, sum: int, per: real, andPer: real): int
    requires per != 0.0 && andPer != 0.0
  {
    Trunc(gain * sum as real / per / andPer)
  }

  function POut(c: Config, errSum: int, count: int): int
    requires count > 0
  {
    Cut(if errSum > 0 then c.po else c.pu, errSum, count as real)
  }

  function IOut(c: Config, integral: int): int {
    Trunc(c.i * integral as real)
  }

  /**
   The derivative term. `undefinedCast` stands for what its cast to an integer yields when the
   target is shorter than one step, so that it divides by zero.
   */
  function DOut(c: Config, derivativeSum: int, dt: int, count: int, undefinedCast: int): int
    requires count > 0
  {
    if dt == 0 then undefinedCast
    else CutTwice(if derivativeSum > 0 then c.do_ else c.du, derivativeSum, dt as real, count as real)
  }

  function Output(c: Config, a: Acc, length: nat, dt: int, undefinedCast: int): int
    requires length > 0
  {
    POut(c, a.errSum, length - WindowStart(c.windowP, length))
    + IOut(c, a.integral)
    + DOut(c, a.derivativeSum, dt, length - WindowStart(c.windowD, length), undefinedCast)
  }

  /** A session's descriptor, with the controller's state in it. */
  class AppHintDesc {
    const uid: int
    var threadIds: seq<int>
    var duration: int
    var currentMin: int
    var isActive: bool
    var integralError: int
    var previousError: int

    constructor (uid: int, threadIds: seq<int>, duration: int)
      ensures this.uid == uid && this.threadIds == threadIds && this.duration == duration
      ensures currentMin == 0 && isActive && integralError == 0 && previousError == 0
    {
      this.uid, this.threadIds, this.duration := uid, threadIds, duration;
      currentMin, isActive, integralError, previousError := 0, true, 0, 0;
    }

    method ConvertWorkDurationToBoostByPid(c: Config, actualDurations: seq<int>, undefinedCast: int)
      returns (output: int)
      requires actualDurations != []
      modifies this`integralError, this`previousError
      ensures var dt := NsTo100Us(duration);
              var acc := Batch(c, old(integralError), old(previousError), Errors(actualDurations, duration), dt);
              && integralError == acc.integral
              && previousError == acc.previous
              && output == Output(c, acc, |actualDurations|, dt, undefinedCast)
    {
      hide Loop, POut, IOut, DOut, NsTo100Us;
      var length := |actualDurations|;
      var pStart := if c.windowP == 0 || c.windowP > length then 0 else length - c.windowP;
      var iStart := if c.windowI == 0 || c.windowI > length then 0 else length - c.windowI;
      var dStart := if c.windowD == 0 || c.windowD > length then 0 else length - c.windowD;
      var dt := NsTo100Us(duration);
      var errSum, derivativeSum := 0, 0;
      ghost var errors := Errors(actualDurations, duration);
      ghost var start := Acc(integralError, previousError, 0, 0);
      var i := Min(pStart, Min(iStart, dStart));
      LoopBegins(c, start, errors, dt);
      while i < length
        invariant LoopStart(c, length) <= i <= length
        invariant Acc(integralError, previousError, errSum, derivativeSum) == Loop(c, start, errors, i, dt)
      {
        var error := NsTo100Us(actualDurations[i] - duration);
        assert error == errors[i];
        LoopOneMore(c, start, errors, i, dt);
        if i >= dStart {
          derivativeSum := derivativeSum + (error - previousError);
        }
        if i >= pStart {
          errSum := errSum + error;
        }
        if i >= iStart {
          integralError := integralError + error * dt;
          integralError := Min(c.integralHigh, integralError);
          integralError := Max(c.integralLow, integralError);
        }
        previousError := error;
        i := i + 1;
      }
      var pOut := POut(c, errSum, length - pStart);
      var iOut := IOut(c, integralError);
      var dOut := DOut(c, derivativeSum, dt, length - dStart, undefinedCast);
      return pOut + iOut + dOut;
    }
  }

  // --- Batches ---------------------------------------------------------------------------------

  predicate NoWindows(c: Config) {
    c.windowP == 0 && c.windowI == 0 && c.windowD == 0
  }

  /** With no windows the loop is a plain fold: the first errors decide as if they came alone. */
  lemma {:induction false} LoopOfPrefix(c: Config, a: Acc, xs: seq<int>, ys: seq<int>, n: nat, dt: int)
    requires NoWindows(c) && n <= |xs|
    ensures Loop(c, a, xs + ys, n, dt) == Loop(c, a, xs, n, dt)
  {
    if n > 0 {
      LoopOfPrefix(c, a, xs, ys, n - 1, dt);
    }
  }

  lemma {:induction false} LoopResumes(c: Config, a: Acc, b: Acc, xs: seq<int>, ys: seq<int>, n: nat, dt: int)
    requires NoWindows(c) && n <= |ys|
    requires var m := Loop(c, a, xs, |xs|, dt); b == Acc(m.integral, m.previous, 0, 0)
    ensures var whole, first, second :=
              Loop(c, a, xs + ys, |xs| + n, dt), Loop(c, a, xs, |xs|, dt), Loop(c, b, ys, n, dt);
            && whole.integral == second.integral
            && whole.previous == second.previous
            && whole.errSum == first.errSum + second.errSum
            && whole.derivativeSum == first.derivativeSum + second.derivativeSum
  {
    if n == 0 {
      LoopOfPrefix(c, a, xs, ys, |xs|, dt);
    } else {
      LoopResumes(c, a, b, xs, ys, n - 1, dt);
      assert (xs + ys)[|xs| + n - 1] == ys[n - 1];
    }
  }

  /**
   Without windows, reporting two batches one after the other leaves the same integral and the
   same previous error as reporting them as one, and the error and derivative sums add up.
   */
  lemma BatchesCompose(c: Config, integral: int, previous: int, xs: seq<int>, ys: seq<int>, dt: int)
    requires NoWindows(c)
    ensures var first := Batch(c, integral, previous, xs, dt);
            var second := Batch(c, first.integral, first.previous, ys, dt);
            var whole := Batch(c, integral, previous, xs + ys, dt);
            && whole.integral == second.integral
            && whole.previous == second.previous
            && whole.errSum == first.errSum + second.errSum
            && whole.derivativeSum == first.derivativeSum + second.derivativeSum
  {
    var first := Batch(c, integral, previous, xs, dt);
    LoopResumes(c, Acc(integral, previous, 0, 0), Acc(first.integral, first.previous, 0, 0), xs, ys, |ys|, dt);
  }

  // --- Windows ---------------------------------------------------------------------------------

  /** How many of a batch a window takes in: as many as it says, or all if it is 0 or there are no more. */
  function Counted(window: nat, length: nat): nat {
    if window == 0 || window >= length then length else window
  }

  /**
   The error the derivative window is measured against: the one just before it, if another window
   takes in more, and otherwise the one carried over from the last batch.
   */
  function ErrorBefore(c: Config, previous: int, errors: seq<int>): int {
    var length := |errors|;
    var counted := Counted(c.windowD, length);
    if Counted(c.windowP, length) > counted || Counted(c.windowI, length) > counted
    then errors[length - counted - 1] else previous
  }

  lemma {:induction false} DerivativeSoFar(c: Config, integral: int, previous: int, errors: seq<int>, n: nat, dt: int)
    requires n <= |errors|
    ensures var a := Loop(c, Acc(integral, previous, 0, 0), errors, n, dt);
            && a.previous == (if n > LoopStart(c, |errors|) then errors[n - 1] else previous)
            && a.derivativeSum == (if n > WindowStart(c.windowD, |errors|)
                                   then errors[n - 1] - ErrorBefore(c, previous, errors) else 0)
  {
    if n > LoopStart(c, |errors|) {
      DerivativeSoFar(c, integral, previous, errors, n - 1, dt);
    }
  }

  /** For any windows the derivative sum telescopes: last error minus the one before the window. */
  lemma DerivativeTelescopes(c: Config, integral: int, previous: int, errors: seq<int>, dt: int)
    requires errors != []
    ensures var a := Batch(c, integral, previous, errors, dt);
            && a.derivativeSum == errors[|errors| - 1] - ErrorBefore(c, previous, errors)
            && a.previous == errors[|errors| - 1]
  {
    DerivativeSoFar(c, integral, previous, errors, |errors|, dt);
  }

  function Sum(s: seq<int>): int {
    if s == [] then 0 else Sum(s[..|s| - 1]) + s[|s| - 1]
  }

  lemma {:induction false} ErrSumSoFar(c: Config, a: Acc, errors: seq<int>, n: nat, dt: int)
    requires n <= |errors| && a.errSum == 0
    ensures var p := WindowStart(c.windowP, |errors|);
            Loop(c, a, errors, n, dt).errSum == if n > p then Sum(errors[p..n]) else 0
  {
    var p := WindowStart(c.windowP, |errors|);
    if n > LoopStart(c, |errors|) {
      ErrSumSoFar(c, a, errors, n - 1, dt);
      if n > p {
        assert errors[p..n][..n - 1 - p] == errors[p..n - 1];
      }
    }
  }

  /** The proportional term sums exactly the errors of its window. */
  lemma ErrSumIsWindowSum(c: Config, integral: int, previous: int, errors: seq<int>, dt: int)
    requires errors != []
    ensures Batch(c, integral, previous, errors, dt).errSum == Sum(errors[WindowStart(c.windowP, |errors|)..])
  {
    var p := WindowStart(c.windowP, |errors|);
    ErrSumSoFar(c, Acc(integral, previous, 0, 0), errors, |errors|, dt);
    assert errors[p..|errors|] == errors[p..];
  }

  /** However far out it started, the integral is inside its bounds after any batch. */
  lemma IntegralInBounds(c: Config, integral: int, previous: int, errors: seq<int>, dt: int)
    requires errors != [] && c.integralLow <= c.integralHigh
    ensures c.integralLow <= Batch(c, integral, previous, errors, dt).integral <= c.integralHigh
  {
  }

  /** Each error of the window moves the integral by error times step, and a bound it would pass holds it. */
  lemma IntegralStopsAtBound(c: Config, a: Acc, errors: seq<int>, n: nat, dt: int)
    requires c.integralLow <= c.integralHigh
    requires |errors| - Counted(c.windowI, |errors|) <= n < |errors|
    ensures var moved := Loop(c, a, errors, n, dt).integral + errors[n] * dt;
            Loop(c, a, errors, n + 1, dt).integral == if moved > c.integralHigh then c.integralHigh
                                                      else if moved < c.integralLow then c.integralLow else moved
  {
    LoopOneMore(c, a, errors, n, dt);
    hide Loop;
  }

  /** The clamp is only a clamp: if no partial sum leaves the bounds, the integral is the plain sum. */
  lemma {:induction false} IntegralIsSumUnlessClamped(c: Config, a: Acc, errors: seq<int>, n: nat, dt: int)
    requires n <= |errors|
    requires var s := WindowStart(c.windowI, |errors|);
             forall k :: s < k <= n ==> c.integralLow <= a.integral + dt * Sum(errors[s..k]) <= c.integralHigh
    ensures var s := WindowStart(c.windowI, |errors|);
            Loop(c, a, errors, n, dt).integral == a.integral + if n > s then dt * Sum(errors[s..n]) else 0
  {
    var s := WindowStart(c.windowI, |errors|);
    if n > LoopStart(c, |errors|) {
      IntegralIsSumUnlessClamped(c, a, errors, n - 1, dt);
      if n > s {
        assert errors[s..n][..n - 1 - s] == errors[s..n - 1];
        Distribute(dt, Sum(errors[s..n - 1]), errors[n - 1]);
      }
    }
  }

  lemma Distribute(dt: int, sum: int, error: int)
    ensures dt * (sum + error) == dt * sum + error * dt
    ensures sum == 0 ==> dt * sum == 0
  {
  }

  // --- The output ------------------------------------------------------------------------------

  /** An error is how late a frame came, in whole steps of 0.1 ms; what is left over is dropped. */
  lemma ErrorsAreLateness(durations: seq<int>, target: int, k: nat)
    requires k < |durations|
    ensures var errors, late := Errors(durations, target), durations[k] - target;
            && |errors| == |durations|
            && if late >= 0 then 0 <= late - 100_000 * errors[k] < 100_000
               else -100_000 < late - 100_000 * errors[k] <= 0
  {
    TruncDivLoses(durations[k] - target, NS_PER_STEP);
  }

  /** `k` is the sum times the gain over the divisor, cut toward zero by less than 1. */
  predicate Weighs(k: int, gain: real, sum: int, divisor: real)
    requires divisor != 0.0
  {
    Truncates(k, gain * sum as real / divisor)
  }

  lemma CutWeighs(gain: real, sum: int, divisor: real)
    requires divisor != 0.0
    ensures Weighs(Cut(gain, sum, divisor), gain, sum, divisor)
  {
    TruncatesIsUnique(Cut(gain, sum, divisor), gain * sum as real / divisor);
  }

  lemma ProportionalTerm(c: Config, errSum: int, count: int)
    requires count > 0
    ensures Weighs(POut(c, errSum, count), if errSum > 0 then c.po else c.pu, errSum, count as real)
  {
    CutWeighs(if errSum > 0 then c.po else c.pu, errSum, count as real);
  }

  lemma IntegralTerm(c: Config, integral: int)
    ensures Weighs(IOut(c, integral), c.i, integral, 1.0)
  {
    TruncatesIsUnique(IOut(c, integral), c.i * integral as real);
  }

  function Product(dt: int, count: int): (r: real)
    ensures dt > 0 && count > 0 ==> r > 0.0
  {
    dt as real * count as real
  }

  lemma DerivativeTerm(c: Config, sum: int, dt: int, count: int, undefinedCast: int)
    requires count > 0 && dt > 0
    ensures Weighs(DOut(c, sum, dt, count, undefinedCast), if sum > 0 then c.do_ else c.du, sum, Product(dt, count))
  {
    hide CutTwice, Weighs;
    CutTwiceWeighs(if sum > 0 then c.do_ else c.du, sum, dt, count);
  }

  lemma CutTwiceWeighs(gain: real, sum: int, dt: int, count: int)
    requires dt > 0 && count > 0
    ensures Weighs(CutTwice(gain, sum, dt as real, count as real), gain, sum, Product(dt, count))
  {
    var x, k := gain * sum as real, CutTwice(gain, sum, dt as real, count as real);
    DivideTwice(x, dt as real, count as real, Product(dt, count));
    TruncatesIsUnique(k, x / Product(dt, count));
  }

  lemma DivideTwice(x: real, y: real, z: real, yz: real)
    requires y > 0.0 && z > 0.0 && yz == y * z
    ensures yz > 0.0 && x / y / z == x / yz
  {
    var q := x / y / z;
    assert q * z == x / y;
    assert q * z * y == x;
    assert q * yz == x;
  }

  /**
   The output is the sum of three terms: the error sum weighted by one gain when positive and by
   another when not, over its window's count; the integral times its gain; and the derivative
   sum, weighted likewise, per time step and over its own window's count.
   */
  lemma {:induction false} OutputIsThreeTerms(c: Config, a: Acc, length: nat, dt: int, undefinedCast: int)
    returns (p: int, i: int, d: int)
    requires length > 0 && dt >= 0
    ensures Output(c, a, length, dt, undefinedCast) == p + i + d
    ensures Weighs(p, if a.errSum > 0 then c.po else c.pu, a.errSum, Counted(c.windowP, length) as real)
    ensures Weighs(i, c.i, a.integral, 1.0)
    ensures dt == 0 ==> d == undefinedCast
    ensures dt > 0 ==> Weighs(d, if a.derivativeSum > 0 then c.do_ else c.du, a.derivativeSum,
                              Product(dt, Counted(c.windowD, length)))
  {
    hide Weighs, POut, IOut, Product;
    var pCount, dCount := Counted(c.windowP, length), Counted(c.windowD, length);
    p, i := POut(c, a.errSum, pCount), IOut(c, a.integral);
    d := DOut(c, a.derivativeSum, dt, dCount, undefinedCast);
    ProportionalTerm(c, a.errSum, pCount);
    IntegralTerm(c, a.integral);
    if dt > 0 {
      hide DOut;
      DerivativeTerm(c, a.derivativeSum, dt, dCount, undefinedCast);
    }
  }

  lemma {:induction false} WeighingKeepsSign(k: int, gain: real, sum: int, divisor: real)
    requires gain >= 0.0 && divisor > 0.0 && Weighs(k, gain, sum, divisor)
    ensures (sum >= 0 ==> k >= 0) && (sum <= 0 ==> k <= 0)
  {
    var x := gain * sum as real;
    assert (sum >= 0 ==> x >= 0.0) && (sum <= 0 ==> x <= 0.0);
    var y := x / divisor;
    assert y * divisor == x;
    assert (x >= 0.0 ==> y >= 0.0) && (x <= 0.0 ==> y <= 0.0);
  }

  /**
   With gains that are not negative, each term has the sign of what it weighs: frames late on the
   whole never lower the output by their lateness, and early ones never raise it.
   */
  lemma TermsHaveTheirSign(c: Config, a: Acc, length: nat, dt: int, undefinedCast: int)
    returns (p: int, i: int, d: int)
    requires length > 0 && dt > 0
    requires c.po >= 0.0 && c.pu >= 0.0 && c.i >= 0.0 && c.do_ >= 0.0 && c.du >= 0.0
    ensures Output(c, a, length, dt, undefinedCast) == p + i + d
    ensures (a.errSum >= 0 ==> p >= 0) && (a.errSum <= 0 ==> p <= 0)
    ensures (a.integral >= 0 ==> i >= 0) && (a.integral <= 0 ==> i <= 0)
    ensures (a.derivativeSum >= 0 ==> d >= 0) && (a.derivativeSum <= 0 ==> d <= 0)
  {
    hide Output, Weighs, Product;
    p, i, d := OutputIsThreeTerms(c, a, length, dt, undefinedCast);
    WeighingKeepsSign(p, if a.errSum > 0 then c.po else c.pu, a.errSum, Counted(c.windowP, length) as real);
    WeighingKeepsSign(i, c.i, a.integral, 1.0);
    WeighingKeepsSign(d, if a.derivativeSum > 0 then c.do_ else c.du, a.derivativeSum,
                      Product(dt, Counted(c.windowD, length)));
  }

  /** A target of 10 ms and proportional gains 2 and 1: 2 ms late raise twice as fast as 2 ms early lower. */
  lemma LateWeighsByItsOwnGain(c: Config, undefinedCast: int)
    requires c.windowP == c.windowI == c.windowD == 0
    requires c.po == 2.0 && c.pu == 1.0 && c.i == c.do_ == c.du == 0.0
    ensures var late, early := Errors([12_000_000], 10_000_000), Errors([8_000_000], 10_000_000);
            && Output(c, Batch(c, 0, 0, late, 100), 1, 100, undefinedCast) == 40
            && Output(c, Batch(c, 0, 0, early, 100), 1, 100, undefinedCast) == -20
  {
    var late, early := Errors([12_000_000], 10_000_000), Errors([8_000_000], 10_000_000);
    assert late == [20] && early == [-20];
    ErrSumIsWindowSum(c, 0, 0, late, 100);
    ErrSumIsWindowSum(c, 0, 0, early, 100);
    assert late[..0] == early[..0] == [];
    assert late[WindowStart(c.windowP, 1)..] == late && early[WindowStart(c.windowP, 1)..] == early;
  }
}
