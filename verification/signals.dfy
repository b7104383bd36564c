/** The signal shapes offered for function blocks: step, ramp, periodic
    pulse, a PID controller and a piecewise-linear lookup table. Each is the
    callable a function block evaluates; the errors they raise are part of
    the result. */
module Signals {
  import opened Common
  import History

  // ---------------------------------------------------------------------------
  // Step and ramp
  // ---------------------------------------------------------------------------

  /** The step: the initial value strictly before the step time, the final
      value from it on. */
  function StepSignal(stepTime: real, initialValue: real, finalValue: real, t: real): (r: real)
    ensures r == initialValue || r == finalValue
    ensures initialValue != finalValue ==> (r == initialValue <==> t < stepTime)
  {
    if t < stepTime then initialValue else finalValue
  }

  /** The ramp: constant outside `[start, end]`, linear inside. A zero-width
      ramp divides by zero exactly when it is read at its one instant. */
  function Ramp(start: real, end: real, initialValue: real, finalValue: real, t: real): (r: Result<real>)
    ensures r.Err? <==> t == start == end
    ensures t < start ==> r == Ok(initialValue)
    ensures t > end && t >= start ==> r == Ok(finalValue)
  {
    if t < start then Ok(initialValue)
    else if t > end then Ok(finalValue)
    else if end == start then Err(ZeroDivisionError("float division by zero"))
    else
      var slope := (finalValue - initialValue) / (end - start);
      Ok(initialValue + slope * (t - start))
  }

  /** The ramp hits its two values at its two ends. */
  lemma RampEndpoints(start: real, end: real, iv: real, fv: real)
    requires start < end
    ensures Ramp(start, end, iv, fv, start) == Ok(iv)
    ensures Ramp(start, end, iv, fv, end) == Ok(fv)
  {
    var slope := (fv - iv) / (end - start);
    assert slope * (end - start) == fv - iv;
  }

  /** A rising ramp never decreases. */
  lemma RampMonotone(start: real, end: real, iv: real, fv: real, t1: real, t2: real)
    requires start < end && iv <= fv && t1 <= t2
    ensures Ramp(start, end, iv, fv, t1).value <= Ramp(start, end, iv, fv, t2).value
  {
    RampWithin(start, end, iv, fv, t1);
    RampWithin(start, end, iv, fv, t2);
    if start <= t1 && t2 <= end {
      var slope := (fv - iv) / (end - start);
      RampInside(start, end, iv, fv, t1);
      RampInside(start, end, iv, fv, t2);
      DivNonneg(fv - iv, end - start);
      MulLe(t1 - start, t2 - start, slope);
    }
  }

  /** Inside the ramp the value is on the line from `(start, iv)` to `(end, fv)`. */
  lemma RampInside(start: real, end: real, iv: real, fv: real, t: real)
    requires start < end && start <= t <= end
    ensures Ramp(start, end, iv, fv, t).value == iv + (fv - iv) / (end - start) * (t - start)
  {
  }

  lemma MulLe(a: real, b: real, k: real)
    requires a <= b && k >= 0.0
    ensures k * a <= k * b && a * k <= b * k
  {
    assert k * b - k * a == k * (b - a);
  }

  /** Every value of a rising ramp lies between its two values. */
  lemma RampWithin(start: real, end: real, iv: real, fv: real, t: real)
    requires start < end && iv <= fv
    ensures iv <= Ramp(start, end, iv, fv, t).value <= fv
  {
    if start <= t <= end {
      var slope := (fv - iv) / (end - start);
      DivNonneg(fv - iv, end - start);
      MulLe(t - start, end - start, slope);
      assert slope * (end - start) == fv - iv;
      MulLe(0.0, t - start, slope);
      RampInside(start, end, iv, fv, t);
    }
  }

  /** Away from the ramp's interior the step and the ramp starting at the
      step time agree. */
  lemma StepIsSteepRamp(stepTime: real, width: real, iv: real, fv: real, t: real)
    requires width > 0.0 && (t < stepTime || t > stepTime + width)
    ensures Ramp(stepTime, stepTime + width, iv, fv, t) == Ok(StepSignal(stepTime, iv, fv, t))
  {
  }

  // ---------------------------------------------------------------------------
  // Pulse
  // ---------------------------------------------------------------------------

  /** Python's `%` on floats: the remainder takes the sign of the divisor. */
  function PyMod(x: real, p: real): (r: real)
    requires p != 0.0
    ensures p > 0.0 ==> 0.0 <= r < p
    ensures p < 0.0 ==> p < r <= 0.0
  {
    var q := (x / p).Floor;
    assert q as real <= x / p < q as real + 1.0;
    if p > 0.0 then
      assert q as real * p <= x < (q as real + 1.0) * p by { DivBounds(x, p, q); }
      x - p * q as real
    else
      assert (q as real + 1.0) * p < x <= q as real * p by { DivBoundsNeg(x, p, q); }
      x - p * q as real
  }

  lemma DivBounds(x: real, p: real, q: int)
    requires p > 0.0 && q as real <= x / p < q as real + 1.0
    ensures q as real * p <= x < (q as real + 1.0) * p
  {
    ScaleBounds(x, p, q as real, x / p);
  }

  lemma DivBoundsNeg(x: real, p: real, q: int)
    requires p < 0.0 && q as real <= x / p < q as real + 1.0
    ensures (q as real + 1.0) * p < x <= q as real * p
  {
    ScaleBounds(-x, -p, q as real, x / p);
    assert (q as real) * (-p) == -(q as real * p);
    assert (q as real + 1.0) * (-p) == -((q as real + 1.0) * p);
  }

  /** `Q <= a < Q + 1` scaled by a positive `p`, where `a * p == x`. */
  lemma ScaleBounds(x: real, p: real, Q: real, a: real)
    requires p > 0.0 && Q <= a < Q + 1.0 && a * p == x
    ensures Q * p <= x
    ensures x < (Q + 1.0) * p
  {
    ScaleLower(x, p, Q, a);
    ScaleUpper(x, p, Q, a);
  }

  lemma ScaleLower(x: real, p: real, Q: real, a: real)
    requires p > 0.0 && Q <= a && a * p == x
    ensures Q * p <= x
  {
    MulLe(Q, a, p);
    assert Q * p <= a * p;
  }

  lemma ScaleUpper(x: real, p: real, Q: real, a: real)
    requires p > 0.0 && a < Q + 1.0 && a * p == x
    ensures x < (Q + 1.0) * p
  {
    MulLt(a, Q + 1.0, p);
    assert a * p < (Q + 1.0) * p;
  }

  lemma MulLt(a: real, b: real, k: real)
    requires a < b && k > 0.0
    ensures a * k < b * k
  {
    assert (b - a) * k > 0.0;
    assert (b - a) * k == b * k - a * k;
  }

  /** Shifting by one period leaves the remainder unchanged. */
  lemma PyModPeriodic(x: real, p: real)
    requires p != 0.0
    ensures PyMod(x + p, p) == PyMod(x, p)
  {
    var a := x / p;
    assert a * p == x;
    assert (a + 1.0) * p == x + p;
    DivUnique(x + p, p, a + 1.0);
    assert ((x + p) / p).Floor == (x / p).Floor + 1;
  }

  /** Real division is the inverse of multiplication. */
  lemma DivUnique(y: real, p: real, c: real)
    requires p != 0.0 && c * p == y
    ensures y / p == c
  {
    assert y / p * p == y;
    assert (y / p - c) * p == 0.0;
  }

  /** A quotient of a non-negative by a positive number is non-negative. */
  lemma DivNonneg(a: real, b: real)
    requires a >= 0.0 && b > 0.0
    ensures a / b >= 0.0
  {
    assert a / b * b == a;
  }

  /** Within one period of a positive length the remainder is the time
      itself. */
  lemma PyModFirstPeriod(x: real, p: real)
    requires p > 0.0 && 0.0 <= x < p
    ensures PyMod(x, p) == x
  {
    var a := x / p;
    assert a * p == x;
    assert 0.0 <= a < 1.0 by {
      assert a < 0.0 ==> a * p < 0.0;
      assert a >= 1.0 ==> (a - 1.0) * p >= 0.0;
    }
    assert (x / p).Floor == 0;
  }

  /** The pulse: high while the phase within the period is below the duty
      fraction of the period, low otherwise; a zero period raises. */
  function Pulse(period: real, duty: real, low: real, high: real, t: real): (r: Result<real>)
    ensures r.Err? <==> period == 0.0
    ensures r.Ok? ==> r.value == low || r.value == high
  {
    if period == 0.0 then Err(ZeroDivisionError("float modulo"))
    else
      var phase := PyMod(t, period);
      Ok(if phase < period * duty then high else low)
  }

  /** The pulse repeats with its period. */
  lemma PulsePeriodic(period: real, duty: real, low: real, high: real, t: real)
    ensures Pulse(period, duty, low, high, t + period) == Pulse(period, duty, low, high, t)
  {
    if period != 0.0 {
      PyModPeriodic(t, period);
    }
  }

  /** In the first period the pulse is high exactly before `period * duty`. */
  lemma PulseFirstPeriod(period: real, duty: real, low: real, high: real, t: real)
    requires period > 0.0 && 0.0 <= t < period
    ensures Pulse(period, duty, low, high, t) == Ok(if t < period * duty then high else low)
  {
    PyModFirstPeriod(t, period);
  }

  // ---------------------------------------------------------------------------
  // PID controller
  // ---------------------------------------------------------------------------

  datatype Gains = Gains(kp: real, ki: real, kd: real, setpoint: real)

  /** The controller's memory between calls. */
  datatype PidState = PidState(integral: real, prevError: real, prevTime: real)

  /** A fresh controller: everything zero. */
  const PidStart := PidState(0.0, 0.0, 0.0)

  /** The control error: the setpoint minus the process value (0 if absent). */
  function ControlError(g: Gains, inputs: map<string, real>): real {
    g.setpoint - (if "process_value" in inputs then inputs["process_value"] else 0.0)
  }

  /** One call of the controller as written: a stored time that is not
      positive counts as "no previous call", so the interval is 0. */
  function PidStep(g: Gains, s: PidState, t: real, inputs: map<string, real>): (r: (real, PidState))
    ensures r.1.prevError == ControlError(g, inputs) && r.1.prevTime == t
    ensures s.prevTime <= 0.0 || t <= s.prevTime ==>
      r.1.integral == s.integral && r.0 == g.kp * ControlError(g, inputs) + g.ki * s.integral
    ensures s.prevTime > 0.0 && t > s.prevTime ==>
      r.1.integral == s.integral + ControlError(g, inputs) * (t - s.prevTime)
    ensures s.prevTime > 0.0 && t > s.prevTime ==>
      r.0 == g.kp * ControlError(g, inputs) + g.ki * r.1.integral
             + g.kd * ((ControlError(g, inputs) - s.prevError) / (t - s.prevTime))
  {
    var e := ControlError(g, inputs);
    var dt := if s.prevTime > 0.0 then t - s.prevTime else 0.0;
    var integral := if dt > 0.0 then s.integral + e * dt else s.integral;
    var derivative := if dt > 0.0 then (e - s.prevError) / dt else 0.0;
    (g.kp * e + g.ki * integral + g.kd * derivative, PidState(integral, e, t))
  }

  /** A pure derivative controller reports `kd` times the rate at which the
      error changed since the previous call. */
  lemma PidDerivativeTracksRate(kd: real, setpoint: real, s: PidState, t: real, inputs: map<string, real>, q: real)
    requires s.prevTime > 0.0 && t > s.prevTime
    requires ControlError(Gains(0.0, 0.0, kd, setpoint), inputs) == s.prevError + q * (t - s.prevTime)
    ensures PidStep(Gains(0.0, 0.0, kd, setpoint), s, t, inputs).0 == kd * q
  {
    RateOfChange(s.prevError, q, t - s.prevTime);
  }

  /** The difference quotient of a linear change is its rate. */
  lemma RateOfChange(e0: real, q: real, dt: real)
    requires dt > 0.0
    ensures ((e0 + q * dt) - e0) / dt == q
  {
    assert (e0 + q * dt) - e0 == q * dt;
  }

  /** The first call of a fresh controller is purely proportional. */
  lemma PidFirstCallProportional(g: Gains, t: real, inputs: map<string, real>)
    ensures PidStep(g, PidStart, t, inputs).0 == g.kp * ControlError(g, inputs)
  {
  }

  /** As written, a clock that starts at 0 loses the first interval: with a
      pure integral controller, error 1, and calls at times 0 and 1, the
      second output is 0 instead of 1. */
  lemma PidClockFromZeroLosesInterval()
    ensures var g := Gains(0.0, 1.0, 0.0, 1.0);
      var first := PidStep(g, PidStart, 0.0, map[]);
      PidStep(g, first.1, 1.0, map[]).0 == 0.0
  {
  }

  /** The controller's memory when "no previous call" is recorded
      explicitly rather than by the stored time. */
  datatype PidMemory = PidMemory(integral: real, prevError: real, prevTime: Option<real>)

  const PidFresh := PidMemory(0.0, 0.0, None)

  /** One call with an explicit "no previous call": every call after the
      first measures its interval from the previous call, whatever the
      clock's origin. */
  function PidStepFixed(g: Gains, s: PidMemory, t: real, inputs: map<string, real>): (r: (real, PidMemory))
    ensures r.1 == PidNext(s, t, ControlError(g, inputs))
    ensures s.prevTime.None? ==> r.0 == g.kp * ControlError(g, inputs) + g.ki * s.integral
    ensures s.prevTime.Some? && t <= s.prevTime.value ==>
      r.0 == g.kp * ControlError(g, inputs) + g.ki * s.integral
    ensures s.prevTime.Some? && t > s.prevTime.value ==>
      r.0 == g.kp * ControlError(g, inputs) + g.ki * r.1.integral
             + g.kd * ((ControlError(g, inputs) - s.prevError) / (t - s.prevTime.value))
  {
    var e := ControlError(g, inputs);
    var next := PidNext(s, t, e);
    var dt := if s.prevTime.Some? then t - s.prevTime.value else 0.0;
    var derivative := if dt > 0.0 then (e - s.prevError) / dt else 0.0;
    (g.kp * e + g.ki * next.integral + g.kd * derivative, next)
  }

  /** After its first call, the fixed controller's derivative term reports
      the rate at which the error changed, from any clock origin. */
  lemma PidFixedDerivativeTracksRate(kd: real, setpoint: real, s: PidMemory, t: real, inputs: map<string, real>, q: real)
    requires s.prevTime.Some? && t > s.prevTime.value
    requires ControlError(Gains(0.0, 0.0, kd, setpoint), inputs) == s.prevError + q * (t - s.prevTime.value)
    ensures PidStepFixed(Gains(0.0, 0.0, kd, setpoint), s, t, inputs).0 == kd * q
  {
    RateOfChange(s.prevError, q, t - s.prevTime.value);
  }

  /** The memory after a call with error `e` at time `t`: the integral
      grows by `e` times the interval since the previous call, if positive. */
  function PidNext(s: PidMemory, t: real, e: real): (r: PidMemory)
    ensures r.prevError == e && r.prevTime == Some(t)
    ensures s.prevTime.None? ==> r.integral == s.integral
    ensures s.prevTime.Some? && t > s.prevTime.value ==> r.integral == s.integral + e * (t - s.prevTime.value)
    ensures s.prevTime.Some? && t <= s.prevTime.value ==> r.integral == s.integral
  {
    var dt := if s.prevTime.Some? then t - s.prevTime.value else 0.0;
    PidMemory(if dt > 0.0 then s.integral + e * dt else s.integral, e, Some(t))
  }

  /** The memory after calls at the given times, from a given memory, with
      the same inputs and so the same control error `e` at every call. */
  function PidRun(s: PidMemory, times: seq<real>, e: real): PidMemory
    decreases |times|
  {
    if |times| == 0 then s
    else PidRun(PidNext(s, times[0], e), times[1..], e)
  }

  /** Over strictly increasing call times with a constant error, the fixed
      controller's integral is the error times the elapsed time since the
      first call, whenever the clock starts. */
  lemma {:induction false} PidRunIntegrates(g: Gains, times: seq<real>, inputs: map<string, real>)
    requires |times| > 0
    requires forall i :: 0 < i < |times| ==> times[i - 1] < times[i]
    ensures var e := ControlError(g, inputs);
      PidRun(PidFresh, times, e).integral == e * (times[|times| - 1] - times[0])
    ensures PidRun(PidFresh, times, ControlError(g, inputs)).prevTime == Some(times[|times| - 1])
  {
    var e := ControlError(g, inputs);
    var s1 := PidNext(PidFresh, times[0], e);
    assert s1 == PidMemory(0.0, e, Some(times[0]));
    PidRunFrom(s1, times[1..], e);
    assert Last(times[0], times[1..]) == times[|times| - 1];
  }

  lemma {:induction false} PidRunFrom(s: PidMemory, times: seq<real>, e: real)
    requires s.prevTime.Some?
    requires |times| > 0 ==> s.prevTime.value < times[0]
    requires forall i :: 0 < i < |times| ==> times[i - 1] < times[i]
    ensures PidRun(s, times, e).integral == s.integral + e * (Last(s.prevTime.value, times) - s.prevTime.value)
    ensures PidRun(s, times, e).prevTime == Some(Last(s.prevTime.value, times))
    decreases |times|
  {
    if |times| > 0 {
      var p := s.prevTime.value;
      var s1 := PidNext(s, times[0], e);
      assert s1.integral == s.integral + e * (times[0] - p);
      assert s1.prevTime == Some(times[0]);
      var rest := times[1..];
      assert forall i :: 0 < i < |rest| ==> rest[i - 1] < rest[i] by {
        forall i | 0 < i < |rest| ensures rest[i - 1] < rest[i] {
          assert rest[i - 1] == times[i] && rest[i] == times[i + 1];
        }
      }
      PidRunFrom(s1, rest, e);
      var last := Last(p, times);
      assert Last(times[0], rest) == last;
      assert PidRun(s1, rest, e).integral == s1.integral + e * (last - times[0]);
      assert PidRun(s, times, e) == PidRun(s1, rest, e);
      AddIntervals(s.integral, e, p, times[0], last);
    } else {
      assert PidRun(s, times, e) == s;
      assert e * (Last(s.prevTime.value, times) - s.prevTime.value) == 0.0;
    }
  }

  lemma AddIntervals(i: real, e: real, p: real, a: real, b: real)
    ensures (i + e * (a - p)) + e * (b - a) == i + e * (b - p)
  {
  }

  /** The last call time, or `p` when there is none. */
  function Last(p: real, times: seq<real>): real {
    if |times| == 0 then p else times[|times| - 1]
  }

  /** The fixed controller integrates the interval the written one loses. */
  lemma PidFixedKeepsFirstInterval()
    ensures var g := Gains(0.0, 1.0, 0.0, 1.0);
      var first := PidStepFixed(g, PidFresh, 0.0, map[]);
      PidStepFixed(g, first.1, 1.0, map[]).0 == 1.0
  {
  }

  // ---------------------------------------------------------------------------
  // Lookup table
  // ---------------------------------------------------------------------------

  datatype Table = Table(times: seq<real>, values: seq<real>)

  /** Building the table rejects lists of different lengths. */
  function MakeTable(times: seq<real>, values: seq<real>): (r: Result<Table>)
    ensures r.Ok? <==> |times| == |values|
    ensures r.Ok? ==> r.value == Table(times, values)
  {
    if |times| != |values| then Err(ValueError("time points and values differ in number"))
    else Ok(Table(times, values))
  }

  /** The first interval `[times[k], times[k+1]]`, `k >= i`, that holds `t`. */
  function FindInterval(times: seq<real>, t: real, i: nat): (r: Option<nat>)
    ensures r.Some? ==> i <= r.value && r.value + 1 < |times| && times[r.value] <= t <= times[r.value + 1]
    ensures r.Some? ==> forall k :: i <= k < r.value ==> !(times[k] <= t <= times[k + 1])
    ensures r.None? ==> forall k :: i <= k && k + 1 < |times| ==> !(times[k] <= t <= times[k + 1])
    decreases |times| - i
  {
    if i + 1 >= |times| then None
    else if times[i] <= t <= times[i + 1] then Some(i)
    else FindInterval(times, t, i + 1)
  }

  /** The table read at `t`: linear inside the first interval that holds
      `t`, the first value before the table and the last value after it. A
      repeated time read exactly there divides by zero; an empty table has
      no value to return. */
  function Lookup(tab: Table, t: real): (r: Result<real>)
    requires |tab.times| == |tab.values|
    ensures |tab.times| == 0 ==> r.Err?
  {
    match FindInterval(tab.times, t, 0)
    case Some(i) =>
      var t0 := tab.times[i];
      var t1 := tab.times[i + 1];
      var v0 := tab.values[i];
      var v1 := tab.values[i + 1];
      if t1 == t0 then Err(ZeroDivisionError("float division by zero"))
      else Ok(Interpolate(t, t0, t1, v0, v1))
    case None =>
      if |tab.times| == 0 then Err(IndexError("list index out of range"))
      else if t < tab.times[0] then Ok(tab.values[0])
      else Ok(tab.values[|tab.values| - 1])
  }

  /** The table's interpolation formula between two knots. */
  function Interpolate(t: real, t0: real, t1: real, v0: real, v1: real): real
    requires t0 != t1
  {
    v0 + (v1 - v0) * (t - t0) / (t1 - t0)
  }

  predicate StrictlyIncreasing(s: seq<real>) {
    forall i, j :: 0 <= i < j < |s| ==> s[i] < s[j]
  }

  function Samples(tab: Table): (h: seq<History.Sample>)
    requires |tab.times| == |tab.values|
    ensures |h| == |tab.times|
    ensures forall i :: 0 <= i < |h| ==> h[i] == (tab.times[i], tab.values[i])
  {
    seq(|tab.times|, i requires 0 <= i < |tab.times| => (tab.times[i], tab.values[i]))
  }

  /** On strictly increasing times the table reads exactly like a block
      history holding the same samples. */
  lemma LookupIsHistory(tab: Table, t: real)
    requires |tab.times| == |tab.values| && |tab.times| > 0 && StrictlyIncreasing(tab.times)
    ensures Lookup(tab, t) == Ok(History.ValueAt(Samples(tab), t).value)
  {
    var h := Samples(tab);
    var j := History.FirstAtOrAfter(h, t);
    match j
    case None =>
      LookupAfter(tab, t);
    case Some(i) =>
      if i == 0 {
        LookupBefore(tab, t);
      } else {
        LookupInside(tab, t, i);
      }
  }

  lemma LookupAfter(tab: Table, t: real)
    requires |tab.times| == |tab.values| && |tab.times| > 0 && StrictlyIncreasing(tab.times)
    requires History.FirstAtOrAfter(Samples(tab), t).None?
    ensures Lookup(tab, t) == Ok(History.ValueAt(Samples(tab), t).value)
  {
    var h := Samples(tab);
    assert h[|h| - 1].0 < t;
    assert FindInterval(tab.times, t, 0).None?;
    assert History.ValueAt(h, t).value == tab.values[|tab.values| - 1];
  }

  lemma LookupBefore(tab: Table, t: real)
    requires |tab.times| == |tab.values| && |tab.times| > 0 && StrictlyIncreasing(tab.times)
    requires History.FirstAtOrAfter(Samples(tab), t) == Some(0)
    ensures Lookup(tab, t) == Ok(History.ValueAt(Samples(tab), t).value)
  {
    var h := Samples(tab);
    assert History.ValueAt(h, t).value == tab.values[0];
    if t < tab.times[0] || |tab.times| == 1 {
      assert FindInterval(tab.times, t, 0).None?;
      assert Lookup(tab, t).value == tab.values[0];
    } else {
      FindIntervalFrom(tab.times, t, 0, 0);
      AtIntervalStart(tab, t);
    }
  }

  lemma AtIntervalStart(tab: Table, t: real)
    requires |tab.times| == |tab.values| && |tab.times| > 1 && tab.times[0] < tab.times[1]
    requires t == tab.times[0] && FindInterval(tab.times, t, 0) == Some(0)
    ensures Lookup(tab, t) == Ok(tab.values[0])
  {
    LookupInInterval(tab, t, 0);
    assert (tab.values[1] - tab.values[0]) * (t - tab.times[0]) == 0.0;
    assert Interpolate(t, tab.times[0], tab.times[1], tab.values[0], tab.values[1]) == tab.values[0];
  }

  /** On strictly increasing times, a time in `(times[k], times[k+1]]` (or
      equal to `times[0]` when `k = 0`) is found in interval `k`. */
  lemma {:induction false} FindIntervalFrom(times: seq<real>, t: real, j: nat, k: nat)
    requires StrictlyIncreasing(times) && j <= k && k + 1 < |times|
    requires times[k] <= t <= times[k + 1]
    requires k > 0 ==> times[k] < t
    ensures FindInterval(times, t, j) == Some(k)
    decreases k - j
  {
    if j < k {
      assert times[j + 1] <= times[k];
      FindIntervalFrom(times, t, j + 1, k);
    }
  }

  lemma LookupInside(tab: Table, t: real, i: nat)
    requires |tab.times| == |tab.values| && |tab.times| > 0 && StrictlyIncreasing(tab.times)
    requires History.FirstAtOrAfter(Samples(tab), t) == Some(i) && i > 0
    ensures Lookup(tab, t) == Ok(History.ValueAt(Samples(tab), t).value)
  {
    var h := Samples(tab);
    assert h[i - 1].0 < t <= h[i].0;
    assert History.ValueAt(h, t).value == History.Lerp(t, h[i - 1], h[i]);
    InsideValue(tab, t, i);
  }

  lemma InsideValue(tab: Table, t: real, i: nat)
    requires |tab.times| == |tab.values| && StrictlyIncreasing(tab.times)
    requires 0 < i < |tab.times| && tab.times[i - 1] < t <= tab.times[i]
    ensures Lookup(tab, t) == Ok(History.Lerp(t, (tab.times[i - 1], tab.values[i - 1]), (tab.times[i], tab.values[i])))
  {
    FindIntervalFrom(tab.times, t, 0, i - 1);
    LookupInInterval(tab, t, i - 1);
    LerpForms(t, tab.times[i - 1], tab.times[i], tab.values[i - 1], tab.values[i]);
  }

  /** Inside a found interval of positive length the table interpolates. */
  lemma LookupInInterval(tab: Table, t: real, k: nat)
    requires |tab.times| == |tab.values| && FindInterval(tab.times, t, 0) == Some(k)
    requires tab.times[k] < tab.times[k + 1]
    ensures Lookup(tab, t) == Ok(Interpolate(t, tab.times[k], tab.times[k + 1], tab.values[k], tab.values[k + 1]))
  {
  }

  /** The table's and the history's interpolation formulas agree. */
  lemma LerpForms(t: real, t0: real, t1: real, v0: real, v1: real)
    requires t0 < t1
    ensures Interpolate(t, t0, t1, v0, v1) == History.Lerp(t, (t0, v0), (t1, v1))
  {
  }

  /** At a knot of a strictly increasing table the table's value is
      returned. */
  lemma LookupAtKnots(tab: Table, k: int)
    requires |tab.times| == |tab.values| && StrictlyIncreasing(tab.times) && 0 <= k < |tab.times|
    ensures Lookup(tab, tab.times[k]) == Ok(tab.values[k])
  {
    LookupIsHistory(tab, tab.times[k]);
    History.ValueAtRecorded(Samples(tab), k);
  }

  lemma RampFormula(start: real, end: real, iv: real, fv: real, t: real)
    requires start < end
    ensures iv + (fv - iv) / (end - start) * (t - start) == Interpolate(t, start, end, iv, fv)
  {
    assert (fv - iv) / (end - start) * (t - start) == (fv - iv) * (t - start) / (end - start);
  }

  /** A rising ramp is the two-point table from its start to its end. */
  lemma RampIsLookup(start: real, end: real, iv: real, fv: real, t: real)
    requires start < end
    ensures Ramp(start, end, iv, fv, t) == Lookup(Table([start, end], [iv, fv]), t)
  {
    var tab := Table([start, end], [iv, fv]);
    if start <= t <= end {
      assert FindInterval(tab.times, t, 0) == Some(0);
      LookupInInterval(tab, t, 0);
      RampInside(start, end, iv, fv, t);
      RampFormula(start, end, iv, fv, t);
    } else {
      assert FindInterval(tab.times, t, 0).None?;
    }
  }
}
