/** The base concentrated block: a block without a spatial mesh whose state
    is advanced by one explicit Euler step per call. The derivative belongs
    to the concrete block and is a parameter: it sees the stored state,
    missing or not, and either returns a rate or raises an error of its own
    kind, which the step passes on unchanged. */
module ConcentratedBlock {
  import opened Common

  datatype Block = Block(name: string, initialized: bool, currentTime: real, state: Option<real>)

  /** What `initialize` reads: each key present or absent. */
  datatype Conditions = Conditions(state: Option<real>, t0: Option<real>)

  datatype StepOutput = StepOutput(state: real, t: real)

  type Derivative = (real, Option<real>) -> Result<real>

  /** The constructor: time 0, no state, not initialised. */
  function Fresh(name: string): (b: Block)
    ensures b.name == name && !b.initialized && b.currentTime == 0.0 && b.state.None?
  {
    Block(name, false, 0.0, None)
  }

  /** `initialize`: only the keys that are present overwrite. */
  function Initialize(b: Block, c: Conditions): (r: Block)
    ensures r.initialized && r.name == b.name
    ensures r.state == (if c.state.Some? then c.state else b.state)
    ensures r.currentTime == c.t0.GetOr(b.currentTime)
  {
    Block(b.name, true, c.t0.GetOr(b.currentTime), if c.state.Some? then c.state else b.state)
  }

  /** `step`: refuse an uninitialised block, otherwise evaluate the
      derivative at the stored state, whatever it raises escaping, and take
      one Euler step; the time becomes `t + dt` whatever the stored time
      was. Adding to a missing state raises a type error. */
  function Step(b: Block, t: real, dt: real, f: Derivative): (r: Result<(Block, StepOutput)>)
    ensures !b.initialized ==> r == Err(RuntimeError("Block " + b.name + " is not initialized"))
    ensures b.initialized && f(t, b.state).Err? ==> r == Err(f(t, b.state).error)
    ensures b.initialized && f(t, b.state).Ok? && b.state.None? ==> r.Err? && r.error.TypeError?
    ensures r.Ok? ==> b.initialized && b.state.Some? && f(t, b.state).Ok?
    ensures r.Ok? ==> (r.value.0.state == Some(r.value.1.state)
      && r.value.1.state - b.state.value == f(t, b.state).value * dt
      && r.value.0.currentTime == t + dt && r.value.1.t == t + dt
      && r.value.0.name == b.name && r.value.0.initialized)
  {
    if !b.initialized then Err(RuntimeError("Block " + b.name + " is not initialized"))
    else
      match f(t, b.state)
      case Err(e) => Err(e)
      case Ok(d) =>
        if b.state.None? then Err(TypeError("unsupported operand type(s) for +: 'NoneType' and 'float'"))
        else
          var y := b.state.value + d * dt;
          Ok((b.(state := Some(y), currentTime := t + dt), StepOutput(y, t + dt)))
  }

  /** `n` consecutive steps of size `dt` from time `t`; the first error ends the run. */
  function Run(b: Block, t: real, dt: real, f: Derivative, n: nat): Result<Block>
    decreases n
  {
    if n == 0 then Ok(b)
    else
      match Step(b, t, dt, f)
      case Err(e) => Err(e)
      case Ok((b1, _)) => Run(b1, t + dt, dt, f, n - 1)
  }

  /** With a constant derivative `c`, `n` Euler steps move the state by
      exactly `n * c * dt` and the clock to `t + n * dt`. */
  lemma {:induction false} RunConstantRate(b: Block, t: real, dt: real, c: real, n: nat)
    requires b.initialized && b.state.Some?
    ensures var r := Run(b, t, dt, (s: real, y: Option<real>) => Ok(c), n);
      && r.Ok?
      && r.value.state.Some?
      && r.value.state.value == b.state.value + n as real * c * dt
      && (n > 0 ==> r.value.currentTime == t + n as real * dt)
    decreases n
  {
    if n > 0 {
      var f := (s: real, y: Option<real>) => Ok(c);
      var b1 := Step(b, t, dt, f).value.0;
      RunConstantRate(b1, t + dt, dt, c, n - 1);
      assert Run(b, t, dt, f, n) == Run(b1, t + dt, dt, f, n - 1);
    }
  }
}
