/** The function block: a concentrated block whose output is a prescribed
    function, a constant, a function of time, or a function of time and the
    inputs read from connected blocks. It records every computed value in a
    history and reads values back by the interpolation of `History`.

    Python values are modelled by what the block does with them: a number,
    a callable (what calling it with no argument, with `t`, or with
    `(t, inputs)` returns, `None` when the call or the `float` conversion
    raises), or any other object (what `float` makes of it). */
module FunctionBlock {
  import opened Common
  import History
  import Connection

  type Inputs = Connection.Inputs

  datatype Fn =
    | Number(x: real)
    | Callable(nullary: Option<real>, unary: real -> Option<real>, binary: (real, Inputs) -> Option<real>)
    | Opaque(asFloat: Option<real>)

  const CONSTANT: string := "constant"
  const TIME: string := "time"
  const TIME_INPUTS: string := "time_inputs"

  predicate Known(kind: string) {
    kind == CONSTANT || kind == TIME || kind == TIME_INPUTS
  }

  /** The constructor's check, as written. A constant given as a callable is
      replaced by the number it returns; the two time kinds need a callable;
      any other kind passes unchecked. */
  function Validate(fn: Fn, kind: string): (r: Result<Fn>)
    ensures r.Err? ==> r.error.ValueError?
    ensures kind == CONSTANT ==> (r.Ok? <==> fn.Number? || (fn.Callable? && fn.nullary.Some?))
    ensures kind == CONSTANT && r.Ok? ==> r.value.Number?
    ensures kind == CONSTANT && fn.Callable? && r.Ok? ==> r.value.x == fn.nullary.value
    ensures (kind == TIME || kind == TIME_INPUTS) ==> (r.Ok? <==> fn.Callable?)
    ensures kind != CONSTANT && r.Ok? ==> r.value == fn
    ensures !Known(kind) ==> r.Ok?
  {
    if kind == CONSTANT then
      match fn
      case Number(_) => Ok(fn)
      case Callable(v, _, _) =>
        if v.Some? then Ok(Number(v.value))
        else Err(ValueError("a constant function must be a number or a callable without arguments"))
      case Opaque(_) => Err(ValueError("a constant function must be a number or a callable without arguments"))
    else if kind == TIME || kind == TIME_INPUTS then
      if fn.Callable? then Ok(fn)
      else Err(ValueError("time and time_inputs functions must be callable"))
    else Ok(fn)
  }

  /** The check as the tests expect it: an unknown kind is a `ValueError`
      at construction. */
  function ValidateIntended(fn: Fn, kind: string): (r: Result<Fn>)
    ensures r.Ok? ==> Known(kind)
    ensures !Known(kind) ==> r.Err? && r.error.ValueError?
    ensures Known(kind) ==> r == Validate(fn, kind)
  {
    if Known(kind) then Validate(fn, kind)
    else Err(ValueError("unknown function type: " + kind))
  }

  /** `_compute_value`: every failure, including an unknown kind, surfaces
      as a `RuntimeError`. */
  function Compute(name: string, fn: Fn, kind: string, t: real, inputs: Inputs): (r: Result<real>)
    ensures r.Err? ==> r.error.RuntimeError?
    ensures !Known(kind) ==> r.Err?
    ensures kind == CONSTANT && fn.Number? ==> r == Ok(fn.x)
    ensures kind == TIME && fn.Callable? ==> (r.Ok? <==> fn.unary(t).Some?)
    ensures kind == TIME && r.Ok? ==> fn.Callable? && fn.unary(t) == Some(r.value)
    ensures kind == TIME_INPUTS && r.Ok? ==> fn.Callable? && fn.binary(t, inputs) == Some(r.value)
  {
    var v :=
      if kind == CONSTANT then
        match fn
        case Number(x) => Some(x)
        case Callable(c, _, _) => c
        case Opaque(f) => f
      else if kind == TIME then
        if fn.Callable? then fn.unary(t) else None
      else if kind == TIME_INPUTS then
        if fn.Callable? then fn.binary(t, inputs) else None
      else None;
    if v.Some? then Ok(v.value)
    else Err(RuntimeError("function evaluation failed in block " + name))
  }

  datatype Block = Block(
    name: string,
    fn: Fn,
    kind: string,
    currentValue: real,
    currentTime: real,
    initialized: bool,
    history: seq<History.Sample>)

  datatype StepOutput = StepOutput(value: real, t: real, readyUntil: real)

  /** What `initialize` leaves behind: the block, mutated even when the
      computation raises, and the error it raised. */
  datatype Outcome = Outcome(block: Block, error: Option<Error>)

  function Fresh(name: string, fn: Fn, kind: string): Block {
    Block(name, fn, kind, 0.0, 0.0, false, [])
  }

  /** The constructor as written. */
  function New(name: string, fn: Fn, kind: string): (r: Result<Block>)
    ensures r.Ok? <==> Validate(fn, kind).Ok?
    ensures r.Ok? ==> r.value == Fresh(name, Validate(fn, kind).value, kind)
    ensures r.Err? ==> r.error.ValueError?
  {
    match Validate(fn, kind)
    case Err(e) => Err(e)
    case Ok(g) => Ok(Fresh(name, g, kind))
  }

  /** The constructor with the intended check. */
  function NewIntended(name: string, fn: Fn, kind: string): (r: Result<Block>)
    ensures r.Ok? ==> Known(r.value.kind) && r == New(name, fn, kind)
    ensures !Known(kind) ==> r.Err? && r.error.ValueError?
  {
    match ValidateIntended(fn, kind)
    case Err(e) => Err(e)
    case Ok(g) => Ok(Fresh(name, g, kind))
  }

  /** `initialize` as written: the value computed at `t0` is thrown away and
      the first sample carries whatever `current_value` held before. */
  function Initialize(b: Block, t0: Option<real>): (r: Outcome)
    ensures r.block.initialized && r.block.currentTime == t0.GetOr(0.0)
    ensures r.block.currentValue == b.currentValue
    ensures r.error.None? <==> Compute(b.name, b.fn, b.kind, t0.GetOr(0.0), map[]).Ok?
    ensures r.error.None? ==> r.block.history == [(t0.GetOr(0.0), b.currentValue)]
    ensures r.error.Some? ==> r.error.value.RuntimeError? && r.block.history == b.history
  {
    var t := t0.GetOr(0.0);
    var b1 := b.(currentTime := t, initialized := true);
    match Compute(b.name, b.fn, b.kind, t, map[])
    case Err(e) => Outcome(b1, Some(e))
    case Ok(_) => Outcome(b1.(history := [(t, b.currentValue)]), None)
  }

  /** `initialize` keeping the value it computes. */
  function InitializeIntended(b: Block, t0: Option<real>): (r: Outcome)
    ensures r.block.initialized && r.block.currentTime == t0.GetOr(0.0)
    ensures r.error.None? <==> Compute(b.name, b.fn, b.kind, t0.GetOr(0.0), map[]).Ok?
    ensures r.error.None? ==>
      r.block.currentValue == Compute(b.name, b.fn, b.kind, t0.GetOr(0.0), map[]).value
      && r.block.history == [(t0.GetOr(0.0), r.block.currentValue)]
    ensures r.error.Some? ==> r.error.value.RuntimeError? && r.block.history == b.history
  {
    var t := t0.GetOr(0.0);
    var b1 := b.(currentTime := t, initialized := true);
    match Compute(b.name, b.fn, b.kind, t, map[])
    case Err(e) => Outcome(b1, Some(e))
    case Ok(v) => Outcome(b1.(currentValue := v, history := [(t, v)]), None)
  }

  /** `step` as written: the value of the function at `t` is recorded under
      the time `t + dt`. */
  function Step(b: Block, t: real, dt: real, inputs: Inputs): (r: Result<(Block, StepOutput)>)
    ensures !b.initialized ==> r == Err(RuntimeError("Function Block " + b.name + " is not initialized"))
    ensures r.Ok? <==> b.initialized && Compute(b.name, b.fn, b.kind, t, inputs).Ok?
    ensures r.Err? ==> r.error.RuntimeError?
    ensures r.Ok? ==>
      var v := Compute(b.name, b.fn, b.kind, t, inputs).value;
      && r.value.1 == StepOutput(v, t + dt, t + dt)
      && r.value.0.currentValue == v && r.value.0.currentTime == t + dt
      && r.value.0.history == b.history + [(t + dt, v)]
      && r.value.0.fn == b.fn && r.value.0.kind == b.kind && r.value.0.initialized
  {
    if !b.initialized then Err(RuntimeError("Function Block " + b.name + " is not initialized"))
    else
      match Compute(b.name, b.fn, b.kind, t, inputs)
      case Err(e) => Err(e)
      case Ok(v) =>
        Ok((b.(currentValue := v, currentTime := t + dt, history := b.history + [(t + dt, v)]),
            StepOutput(v, t + dt, t + dt)))
  }

  /** `step` recording the value under the time it was computed for; the
      returned output is unchanged. */
  function StepIntended(b: Block, t: real, dt: real, inputs: Inputs): (r: Result<(Block, StepOutput)>)
    ensures r.Ok? <==> Step(b, t, dt, inputs).Ok?
    ensures r.Err? ==> r == Step(b, t, dt, inputs)
    ensures r.Ok? ==>
      var v := Compute(b.name, b.fn, b.kind, t, inputs).value;
      && r.value.1 == Step(b, t, dt, inputs).value.1
      && r.value.0 == Step(b, t, dt, inputs).value.0.(history := b.history + [(t, v)])
  {
    if !b.initialized then Err(RuntimeError("Function Block " + b.name + " is not initialized"))
    else
      match Compute(b.name, b.fn, b.kind, t, inputs)
      case Err(e) => Err(e)
      case Ok(v) =>
        Ok((b.(currentValue := v, currentTime := t + dt, history := b.history + [(t, v)]),
            StepOutput(v, t + dt, t + dt)))
  }

  /** `get_value_at_time`: with no history the function is evaluated
      directly, otherwise the history is read back. */
  function ValueAtTime(b: Block, t: real): (r: Result<real>)
    ensures |b.history| == 0 ==> r == Compute(b.name, b.fn, b.kind, t, map[])
    ensures |b.history| > 0 ==> r.Ok? && Some(r.value) == History.ValueAt(b.history, t)
  {
    if |b.history| == 0 then Compute(b.name, b.fn, b.kind, t, map[])
    else Ok(History.ValueAt(b.history, t).value)
  }

  // ---------------------------------------------------------------------
  // Properties

  /** A constant block that passes construction computes its constant at
      every time and for all inputs, whether it was given as a number or as
      a callable without arguments. */
  lemma ConstantIsConstant(name: string, fn: Fn, t: real, inputs: Inputs)
    requires Validate(fn, CONSTANT).Ok?
    ensures var g := Validate(fn, CONSTANT).value;
      Compute(name, g, CONSTANT, t, inputs) == Ok(if fn.Number? then fn.x else fn.nullary.value)
  {
  }

  /** A time block that passes construction evaluates the callable at `t`,
      and fails exactly when the callable does. */
  lemma TimeBlockEvaluates(name: string, fn: Fn, t: real, inputs: Inputs)
    requires Validate(fn, TIME).Ok?
    ensures Compute(name, Validate(fn, TIME).value, TIME, t, inputs)
      == if fn.unary(t).Some? then Ok(fn.unary(t).value) else Err(RuntimeError("function evaluation failed in block " + name))
  {
  }

  /** As written, a block of unknown kind is constructed, and then every
      evaluation of it fails: the error the tests expect at construction
      only arrives at the first step. */
  lemma UnknownKindAccepted(name: string, fn: Fn, kind: string, t: real, inputs: Inputs)
    requires !Known(kind)
    ensures New(name, fn, kind).Ok?
    ensures var b := New(name, fn, kind).value;
      Initialize(b, Some(t)).error.Some? && Compute(b.name, b.fn, b.kind, t, inputs).Err?
  {
  }

  /** The concrete case of the tests: the kind "invalid_type" with the
      constant 5.0 is accepted as written and rejected as intended. */
  lemma InvalidTypeExample()
    ensures New("invalid", Number(5.0), "invalid_type").Ok?
    ensures NewIntended("invalid", Number(5.0), "invalid_type").Err?
    ensures NewIntended("invalid", Number(5.0), "invalid_type").error.ValueError?
  {
    assert !Known("invalid_type") by {
      assert "invalid_type"[0] != CONSTANT[0];
      assert "invalid_type"[0] != TIME[0];
      assert "invalid_type"[0] != TIME_INPUTS[0];
    }
  }

  /** As written, a freshly constructed block's history starts at 0.0
      whatever the function's value at `t0` is. */
  lemma FreshInitializeRecordsZero(name: string, fn: Fn, kind: string, t0: Option<real>)
    requires New(name, fn, kind).Ok?
    requires Initialize(New(name, fn, kind).value, t0).error.None?
    ensures Initialize(New(name, fn, kind).value, t0).block.history == [(t0.GetOr(0.0), 0.0)]
    ensures Initialize(New(name, fn, kind).value, t0).block.currentValue == 0.0
  {
  }

  /** The constant 5.0: the first sample holds 0.0 as written, 5.0 as
      intended. */
  lemma ConstantFiveExample()
    ensures var b := New("constant", Number(5.0), CONSTANT).value;
      && Initialize(b, Some(0.0)).block.history == [(0.0, 0.0)]
      && InitializeIntended(b, Some(0.0)).block.history == [(0.0, 5.0)]
  {
  }

  /** The block evaluates the function `g` of time. */
  ghost predicate FollowsTime(b: Block, g: real -> real) {
    b.kind == TIME && b.fn.Callable? && forall t :: b.fn.unary(t) == Some(g(t))
  }

  /** As intended, the first sample lies on the graph of the function. */
  lemma IntendedInitializeOnGraph(b: Block, g: real -> real, t0: Option<real>)
    requires FollowsTime(b, g)
    ensures var r := InitializeIntended(b, t0);
      && r.error.None?
      && r.block.history == [(t0.GetOr(0.0), g(t0.GetOr(0.0)))]
      && History.OnGraph(r.block.history, g)
  {
    var t := t0.GetOr(0.0);
    assert b.fn.unary(t) == Some(g(t));
  }

  /** As intended, a step at a time not before the last recorded one keeps
      the history on the graph of the function and in time order. */
  lemma IntendedStepOnGraph(b: Block, g: real -> real, t: real, dt: real, inputs: Inputs)
    requires b.initialized && FollowsTime(b, g)
    requires History.OnGraph(b.history, g) && History.NonDecreasing(b.history)
    requires |b.history| > 0 ==> b.history[|b.history| - 1].0 <= t
    ensures StepIntended(b, t, dt, inputs).Ok?
    ensures var b1 := StepIntended(b, t, dt, inputs).value.0;
      && FollowsTime(b1, g)
      && b1.history == b.history + [(t, g(t))]
      && History.OnGraph(b1.history, g) && History.NonDecreasing(b1.history)
  {
    assert b.fn.unary(t) == Some(g(t));
    var h := b.history + [(t, g(t))];
    assert forall i :: 0 <= i < |b.history| ==> b.history[i].0 <= t by {
      forall i | 0 <= i < |b.history|
        ensures b.history[i].0 <= t
      {
        assert b.history[i].0 <= b.history[|b.history| - 1].0;
      }
    }
    assert History.NonDecreasing(h) by {
      forall i, j | 0 <= i <= j < |h|
        ensures h[i].0 <= h[j].0
      {
        if j < |b.history| {
          assert h[i] == b.history[i] && h[j] == b.history[j];
        } else if i < |b.history| {
          assert h[i] == b.history[i];
        }
      }
    }
  }

  /** As intended, reading back at a recorded time returns the function's
      value there. */
  lemma IntendedReadBack(b: Block, g: real -> real, k: int)
    requires History.OnGraph(b.history, g) && History.NonDecreasing(b.history)
    requires 0 <= k < |b.history|
    ensures ValueAtTime(b, b.history[k].0) == Ok(g(b.history[k].0))
  {
    History.ValueAtOnGraph(b.history, g, k);
  }

  /** Steps at each of `times` in turn, with the intended recording. */
  function RunIntended(b: Block, times: seq<real>, dt: real, inputs: Inputs): Result<Block>
    decreases |times|
  {
    if |times| == 0 then Ok(b)
    else
      match StepIntended(b, times[0], dt, inputs)
      case Err(e) => Err(e)
      case Ok((b1, _)) => RunIntended(b1, times[1..], dt, inputs)
  }

  predicate Sorted(times: seq<real>) {
    forall i, j :: 0 <= i <= j < |times| ==> times[i] <= times[j]
  }

  /** As intended, stepping a time function at non-decreasing times appends
      one sample per step, each on the graph of the function, so the block
      reads back the function's exact value at every time it stepped at. */
  lemma {:induction false} IntendedRunOnGraph(b: Block, g: real -> real, times: seq<real>, dt: real, inputs: Inputs)
    requires b.initialized && FollowsTime(b, g)
    requires History.OnGraph(b.history, g) && History.NonDecreasing(b.history)
    requires Sorted(times)
    requires |b.history| > 0 && |times| > 0 ==> b.history[|b.history| - 1].0 <= times[0]
    ensures RunIntended(b, times, dt, inputs).Ok?
    ensures var h := RunIntended(b, times, dt, inputs).value.history;
      && |h| == |b.history| + |times|
      && h[..|b.history|] == b.history
      && History.OnGraph(h, g) && History.NonDecreasing(h)
      && (forall i :: 0 <= i < |times| ==> h[|b.history| + i] == (times[i], g(times[i])))
    decreases |times|
  {
    if |times| > 0 {
      IntendedStepOnGraph(b, g, times[0], dt, inputs);
      var b1 := StepIntended(b, times[0], dt, inputs).value.0;
      assert b1.initialized;
      IntendedRunOnGraph(b1, g, times[1..], dt, inputs);
      assert RunIntended(b, times, dt, inputs) == RunIntended(b1, times[1..], dt, inputs);
      var h := RunIntended(b1, times[1..], dt, inputs).value.history;
      assert h[..|b1.history|] == b1.history;
      assert h[..|b.history|] == b.history by {
        assert b1.history[..|b.history|] == b.history;
      }
      forall i | 0 <= i < |times|
        ensures h[|b.history| + i] == (times[i], g(times[i]))
      {
        if i == 0 {
          assert h[|b.history|] == b1.history[|b.history|];
        } else {
          assert times[1..][i - 1] == times[i];
        }
      }
    }
  }

  /** As intended, after a run every step time reads back as the function's
      value there. */
  lemma IntendedRunReadsBack(b: Block, g: real -> real, times: seq<real>, dt: real, inputs: Inputs, i: int)
    requires b.initialized && FollowsTime(b, g)
    requires History.OnGraph(b.history, g) && History.NonDecreasing(b.history)
    requires Sorted(times)
    requires |b.history| > 0 && |times| > 0 ==> b.history[|b.history| - 1].0 <= times[0]
    requires 0 <= i < |times|
    ensures RunIntended(b, times, dt, inputs).Ok?
    ensures ValueAtTime(RunIntended(b, times, dt, inputs).value, times[i]) == Ok(g(times[i]))
  {
    IntendedRunOnGraph(b, g, times, dt, inputs);
    var b1 := RunIntended(b, times, dt, inputs).value;
    assert b1.history[|b.history| + i].0 == times[i];
    IntendedReadBack(b1, g, |b.history| + i);
  }

  /** As written, every stepped sample is late by the step size: the value
      recorded under `t + dt` is the function's value at `t`. */
  lemma StepRecordsLate(b: Block, g: real -> real, t: real, dt: real, inputs: Inputs)
    requires b.initialized && FollowsTime(b, g)
    ensures Step(b, t, dt, inputs).Ok?
    ensures var h := Step(b, t, dt, inputs).value.0.history;
      h[|h| - 1] == (t + dt, g(t))
  {
    assert b.fn.unary(t) == Some(g(t));
  }

  function Square(t: real): real { t * t }

  const SQUARE: Fn := Callable(None, (t: real) => Some(Square(t)), (t: real, i: Inputs) => None)

  /** The interpolation test for `t ** 2`: initialise at 0, step at 0, 0.1
      and 0.2 with `dt = 0.1`, read back at 0.15. As written the read-back
      is 0.005, which is 0.0175 from 0.0225 and fails a two-place
      comparison; as intended it is 0.025. */
  lemma SquareReadBackAsWritten()
    ensures var b0 := Initialize(Fresh("test", SQUARE, TIME), Some(0.0)).block;
      var b1 := Step(b0, 0.0, 0.1, map[]).value.0;
      var b2 := Step(b1, 0.1, 0.1, map[]).value.0;
      var b3 := Step(b2, 0.2, 0.1, map[]).value.0;
      b3.history == [(0.0, 0.0), (0.1, 0.0), (0.2, 0.01), (0.3, 0.04)]
      && ValueAtTime(b3, 0.15) == Ok(0.005)
  {
    var b0 := Initialize(Fresh("test", SQUARE, TIME), Some(0.0)).block;
    assert b0.history == [(0.0, 0.0)];
    var b1 := Step(b0, 0.0, 0.1, map[]).value.0;
    assert b1.history == [(0.0, 0.0), (0.1, 0.0)];
    var b2 := Step(b1, 0.1, 0.1, map[]).value.0;
    assert b2.history == [(0.0, 0.0), (0.1, 0.0), (0.2, 0.01)];
    var h: seq<History.Sample> := [(0.0, 0.0), (0.1, 0.0), (0.2, 0.01), (0.3, 0.04)];
    assert Step(b2, 0.2, 0.1, map[]).value.0.history == h;
    assert History.FirstAtOrAfter(h, 0.15) == Some(2) by {
      assert h[1..][1..] == [(0.2, 0.01), (0.3, 0.04)];
    }
    assert History.Lerp(0.15, h[1], h[2]) == 0.005;
  }

  lemma SquareReadBackIntended()
    ensures var b0 := InitializeIntended(Fresh("test", SQUARE, TIME), Some(0.0)).block;
      var b1 := StepIntended(b0, 0.0, 0.1, map[]).value.0;
      var b2 := StepIntended(b1, 0.1, 0.1, map[]).value.0;
      var b3 := StepIntended(b2, 0.2, 0.1, map[]).value.0;
      b3.history == [(0.0, 0.0), (0.0, 0.0), (0.1, 0.01), (0.2, 0.04)]
      && ValueAtTime(b3, 0.15) == Ok(0.025)
  {
    var b0 := InitializeIntended(Fresh("test", SQUARE, TIME), Some(0.0)).block;
    assert b0.history == [(0.0, 0.0)];
    var b1 := StepIntended(b0, 0.0, 0.1, map[]).value.0;
    assert b1.history == [(0.0, 0.0), (0.0, 0.0)];
    var b2 := StepIntended(b1, 0.1, 0.1, map[]).value.0;
    assert b2.history == [(0.0, 0.0), (0.0, 0.0), (0.1, 0.01)];
    var h: seq<History.Sample> := [(0.0, 0.0), (0.0, 0.0), (0.1, 0.01), (0.2, 0.04)];
    assert StepIntended(b2, 0.2, 0.1, map[]).value.0.history == h;
    assert History.FirstAtOrAfter(h, 0.15) == Some(3) by {
      assert h[1..][1..][1..] == [(0.2, 0.04)];
    }
    assert History.Lerp(0.15, h[2], h[3]) == 0.025;
  }
}
