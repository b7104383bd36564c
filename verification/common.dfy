/** Shared vocabulary of the model: optional values, results carrying the
    error the Python code would raise, the fixed tolerance, and the integer
    conversions Python performs (`round`, `math.ceil`, `int`). */
module Common {

  /** A value or Python's `None`. */
  datatype Option<+T> = None | Some(value: T) {
    function GetOr(default: T): T {
      match this
      case Some(v) => v
      case None => default
    }
  }

  /** The exceptions the modelled code raises, by Python class. */
  datatype Error =
    | ValueError(msg: string)
    | RuntimeError(msg: string)
    | KeyError(msg: string)
    | IndexError(msg: string)
    | TypeError(msg: string)
    | AttributeError(msg: string)
    | ZeroDivisionError(msg: string)
    | OverflowError(msg: string)
    | UnboundLocalError(msg: string)
    | Exception(msg: string)

  datatype Result<+T> = Ok(value: T) | Err(error: Error)

  /** A point of the (s, t) plane: s is the propagation coordinate, t is time. */
  type Point = (real, real)

  /** The tolerance written `1e-10` throughout the source. */
  const EPS: real := 0.0000000001

  function Abs(x: real): (r: real)
    ensures r >= 0.0
    ensures r == x || r == -x
  {
    if x < 0.0 then -x else x
  }

  /** Python's `round(x)` for a float: nearest integer, ties to the even one. */
  function PyRound(x: real): (r: int)
    ensures x - 0.5 <= r as real <= x + 0.5
    ensures r as real == x - 0.5 || r as real == x + 0.5 ==> r % 2 == 0
  {
    var f := x.Floor;
    var frac := x - f as real;
    if frac < 0.5 then f
    else if frac > 0.5 then f + 1
    else if f % 2 == 0 then f
    else f + 1
  }

  /** `round` never reverses the order of its arguments. */
  lemma PyRoundMonotone(x: real, y: real)
    requires x <= y
    ensures PyRound(x) <= PyRound(y)
  {
  }

  /** `round` is the identity on integral values. */
  lemma PyRoundOfInt(n: int)
    ensures PyRound(n as real) == n
  {
  }

  /** Python's `math.ceil`: the least integer not below x. */
  function Ceil(x: real): (r: int)
    ensures r as real >= x
    ensures (r - 1) as real < x
  {
    -((-x).Floor)
  }

  /** Python's `int(x)` for a float: truncation toward zero. */
  function Trunc(x: real): (r: int)
    ensures x >= 0.0 ==> 0 <= r && r as real <= x < (r + 1) as real
    ensures x < 0.0 ==> r <= 0 && (r - 1) as real < x <= r as real
  {
    if x >= 0.0 then x.Floor else -((-x).Floor)
  }

  function Max(a: real, b: real): (r: real)
    ensures r >= a && r >= b
    ensures r == a || r == b
  {
    if a >= b then a else b
  }

  /** The inclusive integer range `range(lo, hi + 1)` as a sequence. */
  function Range(lo: int, hi: int): (r: seq<int>)
    ensures |r| == if hi < lo then 0 else hi - lo + 1
    ensures forall n :: 0 <= n < |r| ==> r[n] == lo + n
    decreases hi - lo
  {
    if hi < lo then [] else [lo] + Range(lo + 1, hi)
  }

  /** Every integer of `[lo, hi]` is listed. */
  lemma RangeCovers(lo: int, hi: int)
    ensures forall k :: lo <= k <= hi ==> k in Range(lo, hi)
  {
    forall k | lo <= k <= hi
      ensures k in Range(lo, hi)
    {
      assert Range(lo, hi)[k - lo] == k;
    }
  }

  /** The values of an integer-keyed dictionary in the order of `keys`: with
      ascending keys, the insertion order of a dictionary filled by a loop
      over a range. */
  function InOrder<T(==)>(m: map<int, T>, keys: seq<int>): (r: seq<T>)
    ensures |r| <= |keys|
    ensures forall k :: k in keys && k in m ==> m[k] in r
    ensures forall v :: v in r ==> v in m.Values
  {
    if |keys| == 0 then []
    else (if keys[0] in m then [m[keys[0]]] else []) + InOrder(m, keys[1..])
  }
}
