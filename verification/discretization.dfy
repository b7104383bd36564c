/** Step derivation for the characteristic lattice: from the two wave speeds
    and either a half node count `m` or a time step `h`, the space step `ds`
    and the two characteristic time steps `dt1 = ds/C1`, `dt2 = ds/C2`; and
    the symmetric index ranges that let the characteristic fan from the
    frame's centre reach every corner. */
module Discretization {
  import opened Common
  import opened Rectangle

  /** The configuration keys this layer reads. `m` and `h` are present or
      absent independently, as in the source's dictionary. */
  datatype Config = Config(
    S0: real, S1: real, T0: real, T1: real,
    C1: real, C2: real,
    m: Option<int>, h: Option<real>)

  /** The three steps. `numpy` records whether `ds` is a numpy `float64`
      (derived from `h`, which is multiplied by the numpy speeds) or a Python
      float (derived from `m`); the two divide by zero differently. The time
      steps are always numpy values, being divided by a numpy speed. */
  datatype Steps = Steps(ds: real, dt1: real, dt2: real, numpy: bool)

  /** Index ranges `(-ir, ir)` and `(-jr, jr)`. */
  datatype Ranges = Ranges(iMin: int, iMax: int, jMin: int, jMax: int)

  /** Wave speeds must be positive (one speed of zero divides by zero). */
  predicate ValidSpeeds(c: Config) {
    c.C1 > 0.0 && c.C2 > 0.0
  }

  function FrameOf(c: Config): Rect {
    Rect(c.S0, c.S1, c.T0, c.T1)
  }

  /** Setup from `m`: the width is split into `2m` space steps. */
  function FromM(frame: Rect, m: int, C1: real, C2: real): (r: Result<Steps>)
    requires C1 > 0.0 && C2 > 0.0
    ensures m == 0 <==> r.Err?
    ensures r.Ok? ==> (2 * m) as real * r.value.ds == frame.S1 - frame.S0
    ensures r.Ok? ==> r.value.dt1 * C1 == r.value.ds && r.value.dt2 * C2 == r.value.ds
  {
    var M := m * 2;
    if M == 0 then Err(ZeroDivisionError("division by zero"))
    else
      var ds := (frame.S1 - frame.S0) / M as real;
      Ok(Steps(ds, ds / C1, ds / C2, false))
  }

  /** Setup from `h`: the two characteristic time steps add up to `h`. */
  function FromH(h: real, C1: real, C2: real): (r: Steps)
    requires C1 > 0.0 && C2 > 0.0
    ensures r.dt1 + r.dt2 == h
    ensures r.dt1 * C1 == r.ds && r.dt2 * C2 == r.ds
    ensures r.numpy
  {
    var ds := h * C1 * C2 / (C1 + C2);
    var st := Steps(ds, ds / C1, ds / C2, true);
    assert st.dt1 == h * C2 / (C1 + C2);
    assert st.dt2 == h * C1 / (C1 + C2);
    st
  }

  /** `_setup_parameters`: `m` is consulted first, then `h`; with neither the
      configuration is rejected. */
  function Setup(c: Config): (r: Result<Steps>)
    requires ValidSpeeds(c)
    ensures c.m.None? && c.h.None? ==> r == Err(ValueError("config must contain 'm' or 'h'"))
    ensures c.m.Some? ==> r == FromM(FrameOf(c), c.m.value, c.C1, c.C2)
    ensures c.m.None? && c.h.Some? ==> r == Ok(FromH(c.h.value, c.C1, c.C2))
  {
    match c.m
    case Some(m) => FromM(FrameOf(c), m, c.C1, c.C2)
    case None =>
      match c.h
      case Some(h) => Ok(FromH(h, c.C1, c.C2))
      case None => Err(ValueError("config must contain 'm' or 'h'"))
  }

  /** A numpy `float64` quotient: division by zero gives an infinity or NaN
      (with a warning) instead of raising. */
  datatype Float64 = Finite(v: real) | PosInf | NegInf | NaN

  /** `a / b` with a numpy divisor. */
  function NpDiv(a: real, b: real): (r: Float64)
    ensures b != 0.0 ==> r == Finite(a / b)
    ensures b == 0.0 ==> (r.NaN? <==> a == 0.0) && (r.PosInf? <==> a > 0.0) && (r.NegInf? <==> a < 0.0)
  {
    if b != 0.0 then Finite(a / b)
    else if a > 0.0 then PosInf
    else if a < 0.0 then NegInf
    else NaN
  }

  /** The float comparison `a > b`: false whenever NaN is involved. */
  predicate Greater(a: Float64, b: Float64) {
    match (a, b)
    case (NaN, _) => false
    case (_, NaN) => false
    case (NegInf, _) => false
    case (PosInf, _) => !b.PosInf?
    case (Finite(x), Finite(y)) => x > y
    case (Finite(_), _) => b.NegInf?
  }

  /** Python's `max(a, b)`: `b` only when `b > a`, so `max(nan, x)` is NaN
      and `max(x, nan)` is `x`. */
  function PyMax(a: Float64, b: Float64): Float64 {
    if Greater(b, a) then b else a
  }

  /** `math.ceil` of a float: an infinity overflows and NaN is a value error. */
  function CeilFloat(x: Float64): (r: Result<int>)
    ensures r.Ok? <==> x.Finite?
    ensures x.Finite? ==> r.value as real >= x.v && (r.value - 1) as real < x.v
    ensures x.PosInf? || x.NegInf? ==> r.Err? && r.error.OverflowError?
    ensures x.NaN? ==> r.Err? && r.error.ValueError?
  {
    match x
    case Finite(v) => Ok(Ceil(v))
    case PosInf => Err(OverflowError("cannot convert float infinity to integer"))
    case NegInf => Err(OverflowError("cannot convert float infinity to integer"))
    case NaN => Err(ValueError("cannot convert float NaN to integer"))
  }

  /** `calculate_index_ranges`: `ir = ceil(max(RS/ds, RT/dt1))`,
      `jr = ceil(max(RS/ds, RT/dt2))`. A zero Python-float `ds` raises
      ZeroDivisionError; zero numpy steps give infinities or NaN, which
      `math.ceil` rejects with OverflowError or, for a frame without width,
      ValueError. */
  function IndexRanges(frame: Rect, st: Steps): (r: Result<Ranges>)
    ensures st.ds != 0.0 && st.dt1 != 0.0 && st.dt2 != 0.0 ==> r.Ok?
    ensures st.ds == 0.0 && !st.numpy ==> r == Err(ZeroDivisionError("float division by zero"))
    ensures st.ds == 0.0 && st.dt1 == 0.0 && st.dt2 == 0.0 && st.numpy ==>
      && r.Err?
      && (r.error.ValueError? <==> frame.S1 == frame.S0)
      && (r.error.OverflowError? <==> frame.S1 != frame.S0)
    ensures r.Ok? ==> r.value.iMin == -r.value.iMax && r.value.jMin == -r.value.jMax
  {
    var RS := (frame.S1 - frame.S0) / 2.0;
    var RT := (frame.T1 - frame.T0) / 2.0;
    if st.ds == 0.0 && !st.numpy then Err(ZeroDivisionError("float division by zero"))
    else
      var a := NpDiv(RS, st.ds);
      match CeilFloat(PyMax(a, NpDiv(RT, st.dt1)))
      case Err(e) => Err(e)
      case Ok(ir) =>
        match CeilFloat(PyMax(a, NpDiv(RT, st.dt2)))
        case Err(e) => Err(e)
        case Ok(jr) => Ok(Ranges(-ir, ir, -jr, jr))
  }

  /** With positive speeds the three steps vanish together. */
  lemma StepsVanishTogether(c: Config)
    requires ValidSpeeds(c) && Setup(c).Ok?
    ensures var st := Setup(c).value;
      (st.ds == 0.0 <==> st.dt1 == 0.0) && (st.ds == 0.0 <==> st.dt2 == 0.0)
  {
    var st := Setup(c).value;
    assert st.dt1 * c.C1 == st.ds && st.dt2 * c.C2 == st.ds;
    if st.ds == 0.0 {
      ZeroFactor(st.dt1, c.C1);
      ZeroFactor(st.dt2, c.C2);
    }
  }

  lemma ZeroFactor(x: real, c: real)
    requires c > 0.0 && x * c == 0.0
    ensures x == 0.0
  {
  }

  /** The ranges of a configuration exist exactly when its step is not zero.
      A zero step from `m` (a frame without width) divides by zero; a zero
      step from `h = 0` overflows, or is NaN when the frame has no width. */
  lemma ZeroStepRejected(c: Config)
    requires ValidSpeeds(c) && Setup(c).Ok?
    ensures var r := IndexRanges(FrameOf(c), Setup(c).value);
      && (r.Err? <==> Setup(c).value.ds == 0.0)
      && (r.Err? && c.m.Some? ==> r.error.ZeroDivisionError?)
      && (r.Err? && c.m.None? ==> (r.error.OverflowError? <==> c.S1 != c.S0))
  {
    StepsVanishTogether(c);
  }

  /** `ir` steps of `ds` and of `dt1` reach the frame's half-width and
      half-height, and so do `jr` steps of `ds` and of `dt2`. */
  predicate Reaches(rg: Ranges, frame: Rect, st: Steps) {
    && rg.iMax as real * st.ds >= (frame.S1 - frame.S0) / 2.0
    && rg.iMax as real * st.dt1 >= (frame.T1 - frame.T0) / 2.0
    && rg.jMax as real * st.ds >= (frame.S1 - frame.S0) / 2.0
    && rg.jMax as real * st.dt2 >= (frame.T1 - frame.T0) / 2.0
  }

  /** With positive steps the ranges reach the frame's half-width and
      half-height in both families. */
  lemma IndexRangesReach(frame: Rect, st: Steps)
    requires st.ds > 0.0 && st.dt1 > 0.0 && st.dt2 > 0.0
    ensures IndexRanges(frame, st).Ok?
    ensures Reaches(IndexRanges(frame, st).value, frame, st)
  {
    FiniteRanges(frame, st);
    ReachesOfRatios(IndexRanges(frame, st).value, frame, st);
  }

  /** Ranges at least the ratios of the half-extents to the steps reach
      those half-extents. */
  lemma ReachesOfRatios(rg: Ranges, frame: Rect, st: Steps)
    requires st.ds > 0.0 && st.dt1 > 0.0 && st.dt2 > 0.0
    requires rg.iMax as real >= (frame.S1 - frame.S0) / 2.0 / st.ds
    requires rg.iMax as real >= (frame.T1 - frame.T0) / 2.0 / st.dt1
    requires rg.jMax as real >= (frame.S1 - frame.S0) / 2.0 / st.ds
    requires rg.jMax as real >= (frame.T1 - frame.T0) / 2.0 / st.dt2
    ensures Reaches(rg, frame, st)
  {
    ScaledBound(rg.iMax as real, (frame.S1 - frame.S0) / 2.0, st.ds);
    ScaledBound(rg.iMax as real, (frame.T1 - frame.T0) / 2.0, st.dt1);
    ScaledBound(rg.jMax as real, (frame.S1 - frame.S0) / 2.0, st.ds);
    ScaledBound(rg.jMax as real, (frame.T1 - frame.T0) / 2.0, st.dt2);
  }

  /** With non-zero steps every quotient is finite and the ranges are the
      ceilings of the larger ratios. */
  lemma FiniteRanges(frame: Rect, st: Steps)
    requires st.ds != 0.0 && st.dt1 != 0.0 && st.dt2 != 0.0
    ensures var RS, RT := (frame.S1 - frame.S0) / 2.0, (frame.T1 - frame.T0) / 2.0;
      var ir, jr := Ceil(Max(RS / st.ds, RT / st.dt1)), Ceil(Max(RS / st.ds, RT / st.dt2));
      IndexRanges(frame, st) == Ok(Ranges(-ir, ir, -jr, jr))
  {
    var RS, RT := (frame.S1 - frame.S0) / 2.0, (frame.T1 - frame.T0) / 2.0;
    assert PyMax(Finite(RS / st.ds), Finite(RT / st.dt1)) == Finite(Max(RS / st.ds, RT / st.dt1));
    assert PyMax(Finite(RS / st.ds), Finite(RT / st.dt2)) == Finite(Max(RS / st.ds, RT / st.dt2));
  }

  lemma ScaledBound(n: real, R: real, d: real)
    requires d > 0.0 && n >= R / d
    ensures n * d >= R
  {
    assert n * d >= (R / d) * d;
  }

  /** Example: `[0,10] x [0,5]`, `C = (2, 3)`, `m = 10` gives `ds = 0.5`,
      `dt1 = 0.25`, `dt2 = 1/6`. */
  lemma ExampleFromM()
    ensures Setup(Config(0.0, 10.0, 0.0, 5.0, 2.0, 3.0, Some(10), None))
      == Ok(Steps(0.5, 0.25, 0.5 / 3.0, false))
  {
  }

  /** Supplying both `m` and `h` silently uses `m`. */
  lemma BothKeysUseM(c: Config)
    requires ValidSpeeds(c) && c.m.Some? && c.h.Some?
    ensures Setup(c) == Setup(c.(h := None))
  {
  }
}
