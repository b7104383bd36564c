/** The ODE block: a concentrated block whose scalar state follows
    `y' = rhs(t, y, inputs)`, advanced by one classical fourth-order
    Runge-Kutta step per call, with every state recorded in a history that
    is read back by the interpolation of `History`.

    The right-hand side is a parameter (`None` when it raises), and so are
    the inputs gathered from the connections at each evaluation time. */
module OdeBlock {
  import opened Common
  import History
  import Connection

  type Inputs = Connection.Inputs

  type Rhs = (real, real, Inputs) -> Option<real>

  /** The inputs the connections deliver at a given time. */
  type Feed = real -> Inputs

  datatype Block = Block(
    name: string,
    rhs: Rhs,
    initialState: real,
    state: real,
    currentTime: real,
    initialized: bool,
    history: seq<History.Sample>)

  /** What `initialize` reads: each key present or absent. */
  datatype Conditions = Conditions(state: Option<real>, t0: Option<real>)

  datatype StepOutput = StepOutput(state: real, t: real, readyUntil: real)

  /** The constructor: nothing recorded, not initialised. The state is not
      read before `initialize` sets it. */
  function New(name: string, rhs: Rhs, initialState: real): (b: Block)
    ensures b.name == name && b.initialState == initialState
    ensures !b.initialized && b.history == []
  {
    Block(name, rhs, initialState, 0.0, 0.0, false, [])
  }

  /** `initialize`: the state comes from the conditions, else from the
      constructor's initial state; the time from the conditions, else 0; the
      history restarts with that one sample. */
  function Initialize(b: Block, c: Conditions): (r: Block)
    ensures r.initialized && r.name == b.name && r.rhs == b.rhs && r.initialState == b.initialState
    ensures c.state.Some? ==> r.state == c.state.value
    ensures c.state.None? ==> r.state == b.initialState
    ensures c.t0.Some? ==> r.currentTime == c.t0.value
    ensures c.t0.None? ==> r.currentTime == 0.0
    ensures r.history == [(r.currentTime, r.state)]
  {
    var y := c.state.GetOr(b.initialState);
    var t := c.t0.GetOr(0.0);
    b.(state := y, currentTime := t, initialized := true, history := [(t, y)])
  }

  /** `_compute_derivative`: a failing right-hand side becomes a
      `RuntimeError`. */
  function Derivative(b: Block, t: real, y: real, feed: Feed): (r: Result<real>)
    ensures r.Ok? <==> b.rhs(t, y, feed(t)).Some?
    ensures r.Ok? ==> b.rhs(t, y, feed(t)) == Some(r.value)
    ensures r.Err? ==> r.error.RuntimeError?
  {
    match b.rhs(t, y, feed(t))
    case Some(d) => Ok(d)
    case None => Err(RuntimeError("Error in ODE rhs_function for block " + b.name))
  }

  /** The weighted slope average of the classical Runge-Kutta step. */
  function Rk4Increment(dt: real, k1: real, k2: real, k3: real, k4: real): real {
    (dt / 6.0) * (k1 + 2.0 * k2 + 2.0 * k3 + k4)
  }

  /** `step`: four slope evaluations, the state moved by their weighted
      average, the clock set to `t + dt`, one sample appended. */
  function Step(b: Block, t: real, dt: real, feed: Feed): (r: Result<(Block, StepOutput)>)
    ensures !b.initialized ==> r == Err(RuntimeError("ODE Block " + b.name + " is not initialized"))
    ensures r.Err? ==> r.error.RuntimeError?
    ensures r.Ok? ==> b.initialized && Derivative(b, t, b.state, feed).Ok?
    ensures r.Ok? ==>
      var b1 := r.value.0;
      && r.value.1 == StepOutput(b1.state, t + dt, t + dt)
      && b1.currentTime == t + dt
      && b1.history == b.history + [(t + dt, b1.state)]
      && b1.name == b.name && b1.rhs == b.rhs && b1.initialState == b.initialState && b1.initialized
  {
    if !b.initialized then Err(RuntimeError("ODE Block " + b.name + " is not initialized"))
    else
      var y := b.state;
      match Derivative(b, t, y, feed)
      case Err(e) => Err(e)
      case Ok(k1) =>
        match Derivative(b, t + dt / 2.0, y + dt * k1 / 2.0, feed)
        case Err(e) => Err(e)
        case Ok(k2) =>
          match Derivative(b, t + dt / 2.0, y + dt * k2 / 2.0, feed)
          case Err(e) => Err(e)
          case Ok(k3) =>
            match Derivative(b, t + dt, y + dt * k3, feed)
            case Err(e) => Err(e)
            case Ok(k4) =>
              var y1 := y + Rk4Increment(dt, k1, k2, k3, k4);
              Ok((b.(state := y1, currentTime := t + dt, history := b.history + [(t + dt, y1)]),
                  StepOutput(y1, t + dt, t + dt)))
  }

  /** `get_solution_at_time`: `None` with no history, otherwise the
      history read back. */
  function SolutionAt(b: Block, t: real): (r: Option<real>)
    ensures r.None? <==> |b.history| == 0
    ensures |b.history| > 0 && t <= b.history[0].0 ==> r == Some(b.history[0].1)
  {
    History.ValueAt(b.history, t)
  }

  /** `n` steps of size `dt`, each from the block's own clock. */
  function Run(b: Block, dt: real, feed: Feed, n: nat): Result<Block>
    decreases n
  {
    if n == 0 then Ok(b)
    else
      match Step(b, b.currentTime, dt, feed)
      case Err(e) => Err(e)
      case Ok((b1, _)) => Run(b1, dt, feed, n - 1)
  }

  // ---------------------------------------------------------------------
  // Properties

  /** A right-hand side that never raises. */
  ghost predicate Total(f: Rhs) {
    forall t, y, i :: f(t, y, i).Some?
  }

  /** The right-hand side of `y' = c`. */
  ghost predicate IsConstant(f: Rhs, c: real) {
    forall s, y, i :: f(s, y, i) == Some(c)
  }

  /** A right-hand side that never fails never makes a step fail. */
  lemma TotalStepSucceeds(b: Block, t: real, dt: real, feed: Feed)
    requires b.initialized && Total(b.rhs)
    ensures Step(b, t, dt, feed).Ok?
  {
    var y := b.state;
    assert b.rhs(t, y, feed(t)).Some?;
    var k1 := Derivative(b, t, y, feed).value;
    assert b.rhs(t + dt / 2.0, y + dt * k1 / 2.0, feed(t + dt / 2.0)).Some?;
    var k2 := Derivative(b, t + dt / 2.0, y + dt * k1 / 2.0, feed).value;
    assert b.rhs(t + dt / 2.0, y + dt * k2 / 2.0, feed(t + dt / 2.0)).Some?;
    var k3 := Derivative(b, t + dt / 2.0, y + dt * k2 / 2.0, feed).value;
    assert b.rhs(t + dt, y + dt * k3, feed(t + dt)).Some?;
  }

  /** A failing first evaluation fails the step with a `RuntimeError`. */
  lemma RhsFailureFailsStep(b: Block, t: real, dt: real, feed: Feed)
    requires b.initialized && b.rhs(t, b.state, feed(t)).None?
    ensures Step(b, t, dt, feed) == Err(RuntimeError("Error in ODE rhs_function for block " + b.name))
  {
  }

  /** With a constant right-hand side the step is exact: the state grows
      by `c * dt`. */
  lemma ConstantRhsStep(b: Block, c: real, t: real, dt: real, feed: Feed)
    requires b.initialized && IsConstant(b.rhs, c)
    ensures Step(b, t, dt, feed).Ok?
    ensures Step(b, t, dt, feed).value.0.state == b.state + c * dt
  {
    var y := b.state;
    assert b.rhs(t, y, feed(t)) == Some(c);
    assert b.rhs(t + dt / 2.0, y + dt * c / 2.0, feed(t + dt / 2.0)) == Some(c);
    assert b.rhs(t + dt, y + dt * c, feed(t + dt)) == Some(c);
    assert Rk4Increment(dt, c, c, c, c) == c * dt;
  }

  /** With a right-hand side that depends on time alone, the step is
      Simpson's rule over `[t, t + dt]`. */
  lemma TimeOnlyRhsIsSimpson(b: Block, g: real -> real, t: real, dt: real, feed: Feed)
    requires b.initialized && forall s, y, i :: b.rhs(s, y, i) == Some(g(s))
    ensures Step(b, t, dt, feed).Ok?
    ensures Step(b, t, dt, feed).value.0.state
      == b.state + dt / 6.0 * (g(t) + 4.0 * g(t + dt / 2.0) + g(t + dt))
  {
    var y := b.state;
    var m := g(t + dt / 2.0);
    assert b.rhs(t, y, feed(t)) == Some(g(t));
    assert b.rhs(t + dt / 2.0, y + dt * g(t) / 2.0, feed(t + dt / 2.0)) == Some(m);
    assert b.rhs(t + dt / 2.0, y + dt * m / 2.0, feed(t + dt / 2.0)) == Some(m);
    var k3 := m;
    assert b.rhs(t + dt, y + dt * k3, feed(t + dt)) == Some(g(t + dt));
  }

  /** The degree-four Taylor polynomial of `exp(z)`. */
  function Taylor4(z: real): real {
    1.0 + z + z * z / 2.0 + z * z * z / 6.0 + z * z * z * z / 24.0
  }

  /** The slope of `y' = lam * y`. */
  function LinearSlope(lam: real, y: real): Option<real> {
    Some(lam * y)
  }

  ghost predicate IsLinear(f: Rhs, lam: real) {
    forall s, y, i :: f(s, y, i) == LinearSlope(lam, y)
  }

  /** For `y' = lam * y` one step multiplies the state by the degree-four
      Taylor polynomial of `exp(lam * dt)`. */
  lemma LinearRhsStep(b: Block, lam: real, t: real, dt: real, feed: Feed)
    requires b.initialized && IsLinear(b.rhs, lam)
    ensures Step(b, t, dt, feed).Ok?
    ensures Step(b, t, dt, feed).value.0.state == b.state * Taylor4(lam * dt)
  {
    var y := b.state;
    var z := lam * dt;
    var k1 := lam * y;
    var k2 := lam * (y + dt * k1 / 2.0);
    var k3 := lam * (y + dt * k2 / 2.0);
    var k4 := lam * (y + dt * k3);
    assert b.rhs(t, y, feed(t)) == LinearSlope(lam, y);
    assert b.rhs(t + dt / 2.0, y + dt * k1 / 2.0, feed(t + dt / 2.0)) == LinearSlope(lam, y + dt * k1 / 2.0);
    assert b.rhs(t + dt / 2.0, y + dt * k2 / 2.0, feed(t + dt / 2.0)) == LinearSlope(lam, y + dt * k2 / 2.0);
    assert b.rhs(t + dt, y + dt * k3, feed(t + dt)) == LinearSlope(lam, y + dt * k3);
    LinearSlopes(y, lam, dt, k1, k2, k3, k4);
  }

  lemma LinearSlopes(y: real, lam: real, dt: real, k1: real, k2: real, k3: real, k4: real)
    requires k1 == lam * y
    requires k2 == lam * (y + dt * k1 / 2.0)
    requires k3 == lam * (y + dt * k2 / 2.0)
    requires k4 == lam * (y + dt * k3)
    ensures y + Rk4Increment(dt, k1, k2, k3, k4) == y * Taylor4(lam * dt)
  {
    var z := lam * dt;
    assert dt * k1 == y * z;
    assert k2 == lam * y * (1.0 + z / 2.0);
    assert dt * k2 == y * (z + z * z / 2.0);
    assert k3 == lam * y * (1.0 + z / 2.0 + z * z / 4.0);
    assert dt * k3 == y * (z + z * z / 2.0 + z * z * z / 4.0);
    assert dt * k4 == y * (z + z * z + z * z * z / 2.0 + z * z * z * z / 4.0);
  }

  /** For `0 < x <= 1` the decay factor `Taylor4(-x)` lies strictly between
      0 and 1. */
  lemma DecayFactorBounds(x: real)
    requires 0.0 < x <= 1.0
    ensures 0.0 < Taylor4(-x) < 1.0
  {
    var x2 := x * x;
    MulBelowOne(x, x, x2);
    var x3 := x2 * x;
    MulBelowOne(x2, x, x3);
    var x4 := x3 * x;
    MulBelowOne(x3, x, x4);
    NegatedPowers(x);
    DecayPolynomial(x, x2, x3, x4);
  }

  lemma MulBelowOne(a: real, x: real, p: real)
    requires a > 0.0 && 0.0 < x <= 1.0 && p == a * x
    ensures 0.0 < p <= a
  {
  }

  lemma NegatedPowers(x: real)
    ensures Taylor4(-x) == 1.0 - x + x * x / 2.0 - x * x * x / 6.0 + x * x * x * x / 24.0
  {
    assert (-x) * (-x) == x * x;
    assert (-x) * (-x) * (-x) == -(x * x * x);
    assert (-x) * (-x) * (-x) * (-x) == x * x * x * x;
  }

  /** The alternating sum, with the powers of `x` as decreasing positive
      quantities. */
  lemma DecayPolynomial(x: real, x2: real, x3: real, x4: real)
    requires 0.0 < x <= 1.0 && 0.0 < x2 <= x && 0.0 < x3 <= x2 && 0.0 < x4 <= x3
    ensures 0.0 < 1.0 - x + x2 / 2.0 - x3 / 6.0 + x4 / 24.0 < 1.0
  {
  }

  /** Decay `y' = -k * y` with `0 < k * dt <= 1`: every step keeps the
      sign of the state and strictly shrinks a non-zero state. */
  lemma DecayShrinks(b: Block, k: real, t: real, dt: real, feed: Feed)
    requires b.initialized && IsLinear(b.rhs, -k)
    requires 0.0 < k * dt <= 1.0
    ensures Step(b, t, dt, feed).Ok?
    ensures var y1 := Step(b, t, dt, feed).value.0.state;
      (b.state > 0.0 ==> 0.0 < y1 < b.state) && (b.state < 0.0 ==> b.state < y1 < 0.0)
      && (b.state == 0.0 ==> y1 == 0.0)
  {
    var lam := -k;
    LinearRhsStep(b, lam, t, dt, feed);
    var y1 := Step(b, t, dt, feed).value.0.state;
    var x := k * dt;
    var z := lam * dt;
    assert z == -x;
    DecayFactorBounds(x);
    assert 0.0 < Taylor4(z) < 1.0;
    ShrinkBy(b.state, Taylor4(z), y1);
  }

  lemma ShrinkBy(y: real, f: real, p: real)
    requires 0.0 < f < 1.0 && p == y * f
    ensures y > 0.0 ==> 0.0 < p < y
    ensures y < 0.0 ==> y < p < 0.0
    ensures y == 0.0 ==> p == 0.0
  {
    if y > 0.0 {
      PositiveProduct(y, 1.0 - f, y - p);
      PositiveProduct(y, f, p);
    } else if y < 0.0 {
      PositiveProduct(-y, 1.0 - f, p - y);
      PositiveProduct(-y, f, -p);
    }
  }

  lemma PositiveProduct(a: real, b: real, p: real)
    requires a > 0.0 && b > 0.0 && p == a * b
    ensures p > 0.0
  {
  }

  /** Each step appends exactly one sample and leaves the earlier ones
      untouched. */
  lemma {:induction false} RunHistoryLength(b: Block, dt: real, feed: Feed, n: nat)
    requires b.initialized && Total(b.rhs)
    ensures Run(b, dt, feed, n).Ok?
    ensures var h := Run(b, dt, feed, n).value.history;
      |h| == |b.history| + n && h[..|b.history|] == b.history
    decreases n
  {
    if n > 0 {
      TotalStepSucceeds(b, b.currentTime, dt, feed);
      var b1 := Step(b, b.currentTime, dt, feed).value.0;
      RunHistoryLength(b1, dt, feed, n - 1);
      assert Run(b, dt, feed, n) == Run(b1, dt, feed, n - 1);
      var h := Run(b1, dt, feed, n - 1).value.history;
      assert h[..|b.history|] == b.history by {
        assert h[..|b1.history|] == b1.history;
        assert b1.history[..|b.history|] == b.history;
      }
    }
  }

  /** The clock after `n` steps of `dt` from `t`, one step at a time. */
  function Clock(t: real, dt: real, n: nat): (r: real)
    decreases n
  {
    if n == 0 then t else Clock(t + dt, dt, n - 1)
  }

  lemma {:induction false} ClockIsLinear(t: real, dt: real, n: nat)
    ensures Clock(t, dt, n) == t + n as real * dt
    decreases n
  {
    if n > 0 {
      ClockIsLinear(t + dt, dt, n - 1);
    }
  }

  /** `n` steps advance the clock by `n * dt`. */
  lemma {:induction false} RunClock(b: Block, dt: real, feed: Feed, n: nat)
    requires b.initialized && Total(b.rhs)
    ensures Run(b, dt, feed, n).Ok?
    ensures Run(b, dt, feed, n).value.currentTime == b.currentTime + n as real * dt
    decreases n
  {
    RunFollowsClock(b, dt, feed, n);
    ClockIsLinear(b.currentTime, dt, n);
  }

  lemma {:induction false} RunFollowsClock(b: Block, dt: real, feed: Feed, n: nat)
    requires b.initialized && Total(b.rhs)
    ensures Run(b, dt, feed, n).Ok?
    ensures Run(b, dt, feed, n).value.currentTime == Clock(b.currentTime, dt, n)
    decreases n
  {
    if n > 0 {
      TotalStepSucceeds(b, b.currentTime, dt, feed);
      var b1 := Step(b, b.currentTime, dt, feed).value.0;
      RunFollowsClock(b1, dt, feed, n - 1);
      assert Run(b, dt, feed, n) == Run(b1, dt, feed, n - 1);
    }
  }

  /** Right after `initialize` and `n` steps, there are `n + 1` samples. */
  lemma InitializeThenRun(b: Block, c: Conditions, dt: real, feed: Feed, n: nat)
    requires Total(b.rhs)
    ensures Run(Initialize(b, c), dt, feed, n).Ok?
    ensures |Run(Initialize(b, c), dt, feed, n).value.history| == n + 1
  {
    var b0 := Initialize(b, c);
    assert Total(b0.rhs) by { assert b0.rhs == b.rhs; }
    RunHistoryLength(b0, dt, feed, n);
  }

  /** The samples all lie on the line `a + c * time`, the state lies on it
      at the block's clock, and the history spans from `start` to the clock. */
  ghost predicate OnLine(b: Block, a: real, c: real, start: real) {
    && |b.history| > 0
    && b.history[0].0 == start
    && b.history[|b.history| - 1].0 == b.currentTime
    && b.state == a + c * b.currentTime
    && forall j :: 0 <= j < |b.history| ==> b.history[j].1 == a + c * b.history[j].0
  }

  /** With a constant right-hand side `c` and `dt >= 0`, running from the
      block's clock keeps the samples on the exact solution line. */
  lemma {:induction false} ConstantRunOnLine(b: Block, c: real, a: real, start: real, dt: real, feed: Feed, n: nat)
    requires b.initialized && IsConstant(b.rhs, c)
    requires OnLine(b, a, c, start) && start <= b.currentTime && dt >= 0.0
    ensures Run(b, dt, feed, n).Ok?
    ensures OnLine(Run(b, dt, feed, n).value, a, c, start)
    ensures start <= Run(b, dt, feed, n).value.currentTime
    decreases n
  {
    if n > 0 {
      ConstantRhsStep(b, c, b.currentTime, dt, feed);
      var b1 := Step(b, b.currentTime, dt, feed).value.0;
      assert b1.state == a + c * b1.currentTime by {
        assert b1.state == b.state + c * dt;
        assert c * (b.currentTime + dt) == c * b.currentTime + c * dt;
      }
      assert b1.history == b.history + [(b1.currentTime, b1.state)];
      assert OnLine(b1, a, c, start);
      assert IsConstant(b1.rhs, c) by { assert b1.rhs == b.rhs; }
      ConstantRunOnLine(b1, c, a, start, dt, feed, n - 1);
      assert Run(b, dt, feed, n) == Run(b1, dt, feed, n - 1);
    }
  }

  /** With a constant right-hand side `c`, from a block whose history is
      just its current sample, as `initialize` leaves it, any number of
      steps read back the exact solution `y0 + c * (t - t0)` at every time
      `t` within the recorded span. */
  lemma ConstantRunReadsExact(b0: Block, c: real, dt: real, feed: Feed, n: nat, t: real)
    requires b0.initialized && IsConstant(b0.rhs, c)
    requires b0.history == [(b0.currentTime, b0.state)]
    requires dt >= 0.0 && b0.currentTime <= t <= b0.currentTime + n as real * dt
    ensures Run(b0, dt, feed, n).Ok?
    ensures SolutionAt(Run(b0, dt, feed, n).value, t) == Some(b0.state + c * (t - b0.currentTime))
  {
    var a := b0.state - c * b0.currentTime;
    assert OnLine(b0, a, c, b0.currentTime);
    ConstantRunFromLine(b0, c, a, dt, feed, n, t);
    LineThrough(b0.state, b0.currentTime, c, t);
  }

  lemma ConstantRunFromLine(b0: Block, c: real, a: real, dt: real, feed: Feed, n: nat, t: real)
    requires b0.initialized && IsConstant(b0.rhs, c) && OnLine(b0, a, c, b0.currentTime)
    requires dt >= 0.0 && b0.currentTime <= t <= b0.currentTime + n as real * dt
    ensures Run(b0, dt, feed, n).Ok?
    ensures SolutionAt(Run(b0, dt, feed, n).value, t) == Some(a + c * t)
  {
    ConstantRunOnLine(b0, c, a, b0.currentTime, dt, feed, n);
    ConstantIsTotal(b0, c);
    RunClock(b0, dt, feed, n);
    OnLineReadsBack(Run(b0, dt, feed, n).value, a, c, b0.currentTime, t);
  }

  lemma LineThrough(y0: real, t0: real, c: real, t: real)
    ensures (y0 - c * t0) + c * t == y0 + c * (t - t0)
  {
  }

  /** A block on the line reads back the line within its recorded span. */
  lemma OnLineReadsBack(b: Block, a: real, c: real, start: real, t: real)
    requires OnLine(b, a, c, start) && start <= t <= b.currentTime
    ensures SolutionAt(b, t) == Some(a + c * t)
  {
    History.ValueAtLinear(b.history, a, c, t);
  }

  lemma ConstantIsTotal(b: Block, c: real)
    requires IsConstant(b.rhs, c)
    ensures Total(b.rhs)
  {
    forall t, y, i
      ensures b.rhs(t, y, i).Some?
    {
      assert b.rhs(t, y, i) == Some(c);
    }
  }
}
