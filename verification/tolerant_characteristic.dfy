/** The tolerant characteristic: edge hits with an `EPS` slack, hit
    coordinates rounded to ten decimals, the least and greatest emitted
    offsets recorded as `k_left` and `k_right`, and a `get_node` that clamps
    offsets outside that run to the boundary nodes. */
module TolerantCharacteristic {
  import opened Common
  import opened Rectangle
  import opened Characteristic
  import opened CharacteristicReach

  /** `10 ** 10`, the scale of `round(x, 10)`. */
  const Scale: real := 10000000000.0

  /** Half a unit of the tenth decimal: the most `round(x, 10)` moves a value. */
  const HalfDecimal: real := 0.00000000005

  /** Python's `round(x, 10)`: the nearest multiple of `1e-10`, ties to even. */
  function Round10(x: real): (r: real)
    ensures x - HalfDecimal <= r <= x + HalfDecimal
  {
    var n := PyRound(x * Scale);
    assert x * Scale - 0.5 <= n as real <= x * Scale + 0.5;
    n as real / Scale
  }

  /** Rounding to ten decimals never reverses an order. */
  lemma Round10Monotone(x: real, y: real)
    requires x <= y
    ensures Round10(x) <= Round10(y)
  {
    PyRoundMonotone(x * Scale, y * Scale);
  }

  function RoundPoint(p: Point): Point {
    (Round10(p.0), Round10(p.1))
  }

  /** `_find_boundary_intersections`: the in-frame hits, each coordinate
      rounded to ten decimals after the containment test. */
  function RoundedHits(l: Line, f: Rect): (r: seq<Point>)
    ensures |r| == |Intersections(l, f, EPS)|
    ensures forall n :: 0 <= n < |r| ==> r[n] == RoundPoint(Intersections(l, f, EPS)[n])
  {
    var hits := Intersections(l, f, EPS);
    seq(|hits|, n requires 0 <= n < |hits| => RoundPoint(hits[n]))
  }

  /** The state after construction. `kBounds` holds the attributes `k_left`
      and `k_right`, which exist only once some node was emitted. */
  datatype Tolerant = Tolerant(bounds: Option<(Point, Point)>, internal: map<int, Point>,
                               kBounds: Option<(int, int)>)

  /** Internal nodes over the offsets `[kl, kr]` and the attributes `k_left`,
      `k_right` as their least and greatest offset; `min([])` raises when no
      offset is in the frame. */
  function Emit(l: Line, f: Rect, left: Point, right: Point, kl: int, kr: int): (r: Result<Tolerant>)
    ensures r.Err? <==> forall k :: kl <= k <= kr ==> !ContainsPoint(f, PointAt(l, k))
    ensures r.Err? ==> r.error.ValueError?
    ensures r.Ok? ==> && r.value.bounds == Some((left, right))
                      && r.value.internal == InternalNodes(l, f, kl, kr)
                      && r.value.kBounds.Some?
                      && var (a, b) := r.value.kBounds.value;
                         && a in r.value.internal && b in r.value.internal
                         && forall k :: k in r.value.internal ==> a <= k <= b
  {
    match (FirstInside(l, f, kl, kr), LastInside(l, f, kl, kr))
    case (Some(a), Some(b)) =>
      Ok(Tolerant(Some((left, right)), InternalNodes(l, f, kl, kr), Some((a, b))))
    case _ => Err(ValueError("min() arg is an empty sequence"))
  }

  /** The constructor as written. With no hit nothing is set; with hits the
      offsets of the boundary nodes come from `_calculate_k`, which divides
      by zero for a horizontal line whose `|step|` is exactly `EPS`; with
      hits but no emitted node, `min([])` raises. */
  function Build(l: Line, f: Rect): (r: Result<Tolerant>)
    ensures |RoundedHits(l, f)| == 0 ==> r == Ok(Tolerant(None, map[], None))
    ensures |RoundedHits(l, f)| > 0 ==>
      ((r.Err? && r.error.ZeroDivisionError?) <==> Abs(l.step) <= EPS && l.dt == 0.0)
    ensures r.Err? ==> |RoundedHits(l, f)| > 0 && (r.error.ZeroDivisionError? || r.error.ValueError?)
    ensures r.Ok? && |RoundedHits(l, f)| > 0 ==>
      r.value.bounds == BoundaryNodes(RoundedHits(l, f)) && r.value.kBounds.Some?
    ensures r.Ok? ==> forall k :: k in r.value.internal ==>
      r.value.internal[k] == PointAt(l, k) && ContainsPoint(f, PointAt(l, k))
    ensures r.Ok? && r.value.kBounds.Some? ==>
      var (a, b) := r.value.kBounds.value;
      && a in r.value.internal && b in r.value.internal
      && forall k :: k in r.value.internal ==> a <= k <= b
  {
    var hits := RoundedHits(l, f);
    if |hits| == 0 then Ok(Tolerant(None, map[], None))
    else
      var (left, right) := BoundaryNodes(hits).value;
      match (CalculateKAsWritten(l, left), CalculateKAsWritten(l, right))
      case (Ok(kl), Ok(kr)) => Emit(l, f, left, right, kl, kr)
      case (Err(e), _) => Err(e)
      case (_, Err(e)) => Err(e)
  }

  /** The constructor with the corrected offset: only `min([])` can fail. */
  function BuildIntended(l: Line, f: Rect): (r: Result<Tolerant>)
    ensures |RoundedHits(l, f)| == 0 ==> r == Ok(Tolerant(None, map[], None))
    ensures r.Err? ==> r.error.ValueError? && |RoundedHits(l, f)| > 0
    ensures r.Ok? && |RoundedHits(l, f)| > 0 ==>
      r.value.bounds == BoundaryNodes(RoundedHits(l, f)) && r.value.kBounds.Some?
  {
    var hits := RoundedHits(l, f);
    if |hits| == 0 then Ok(Tolerant(None, map[], None))
    else
      HitsHaveDivisor(l, f, EPS);
      var (left, right) := BoundaryNodes(hits).value;
      Emit(l, f, left, right, CalculateK(l, left), CalculateK(l, right))
  }

  /** Away from `|step| = EPS` the two constructors coincide; at
      `|step| = EPS` the one as written measures the rounded hits along `t`. */
  lemma BuildAgrees(l: Line, f: Rect)
    requires Abs(l.step) != EPS
    ensures Build(l, f) == BuildIntended(l, f)
  {
    var hits := RoundedHits(l, f);
    if |hits| > 0 {
      HitsHaveDivisor(l, f, EPS);
      var (left, right) := BoundaryNodes(hits).value;
      CalculateKAgrees(l, left);
      CalculateKAgrees(l, right);
    }
  }

  /** `get_node`: below `k_left` the left boundary node, above `k_right` the
      right one, otherwise the internal node if there is one. Without the two
      attributes the lookup raises. */
  function GetNode(c: Tolerant, k: int): (r: Result<Option<Point>>)
    ensures c.kBounds.None? <==> r.Err?
    ensures c.kBounds.Some? && c.bounds.Some? && k < c.kBounds.value.0 ==>
      r == Ok(Some(c.bounds.value.0))
    ensures c.kBounds.Some? && c.bounds.Some? && c.kBounds.value.0 <= k && k > c.kBounds.value.1 ==>
      r == Ok(Some(c.bounds.value.1))
    ensures c.kBounds.Some? && c.kBounds.value.0 <= k <= c.kBounds.value.1 ==>
      r == Ok(if k in c.internal then Some(c.internal[k]) else None)
  {
    match c.kBounds
    case None => Err(AttributeError("'Characteristic' object has no attribute 'k_left'"))
    case Some((a, b)) =>
      if k < a then Ok(if c.bounds.Some? then Some(c.bounds.value.0) else None)
      else if k > b then Ok(if c.bounds.Some? then Some(c.bounds.value.1) else None)
      else Ok(if k in c.internal then Some(c.internal[k]) else None)
  }

  /** The emitted offsets form one run without gaps, so once built, `get_node`
      answers every offset with a node. */
  lemma GetNodeTotal(l: Line, f: Rect, k: int)
    requires Build(l, f).Ok? && Build(l, f).value.kBounds.Some?
    ensures GetNode(Build(l, f).value, k).Ok? && GetNode(Build(l, f).value, k).value.Some?
  {
    var c := Build(l, f).value;
    var (a, b) := c.kBounds.value;
    if a <= k <= b {
      InsideContiguous(l, f, a, k, b);
      RunIsEmitted(l, f, a, k, b);
    }
  }

  lemma RunIsEmitted(l: Line, f: Rect, a: int, k: int, b: int)
    requires Build(l, f).Ok? && Build(l, f).value.kBounds == Some((a, b))
    requires a <= k <= b && ContainsPoint(f, PointAt(l, k))
    ensures k in Build(l, f).value.internal
  {
    var hits := RoundedHits(l, f);
    var (left, right) := BoundaryNodes(hits).value;
    var kl, kr := CalculateKAsWritten(l, left).value, CalculateKAsWritten(l, right).value;
    assert Build(l, f) == Emit(l, f, left, right, kl, kr);
    assert a in InternalNodes(l, f, kl, kr) && b in InternalNodes(l, f, kl, kr);
  }

  /** Completeness: every in-frame lattice point of a line moving right by
      more than `EPS` per offset, whose time increment is zero or not
      degenerate, is an internal node, and then the construction succeeds.
      (At `step = EPS` exactly, a boundary hit rounded up by half a decimal
      could round its offset past the lattice point.) */
  lemma BuildEmitsLatticePoint(l: Line, f: Rect, k: int)
    requires l.step > EPS
    requires Abs(l.dt) >= EPS || l.dt == 0.0
    requires ContainsPoint(f, PointAt(l, k))
    ensures Build(l, f).Ok?
    ensures k in Build(l, f).value.internal && Build(l, f).value.internal[k] == PointAt(l, k)
  {
    BuildAgrees(l, f);
    RoundedOffsetsEnclose(l, f, k);
    var bn := BoundaryNodes(RoundedHits(l, f)).value;
    var kl, kr := CalculateK(l, bn.0), CalculateK(l, bn.1);
    assert BuildIntended(l, f) == Emit(l, f, bn.0, bn.1, kl, kr);
  }

  /** The offsets of the rounded boundary nodes enclose every in-frame
      lattice offset. */
  lemma RoundedOffsetsEnclose(l: Line, f: Rect, k: int)
    requires l.step > EPS
    requires Abs(l.dt) >= EPS || l.dt == 0.0
    requires ContainsPoint(f, PointAt(l, k))
    ensures BoundaryNodes(RoundedHits(l, f)).Some?
    ensures CalculateK(l, BoundaryNodes(RoundedHits(l, f)).value.0) <= k
    ensures k <= CalculateK(l, BoundaryNodes(RoundedHits(l, f)).value.1)
  {
    RoundedBoundsNear(l, f, k);
    var bn := BoundaryNodes(RoundedHits(l, f)).value;
    OffsetWithinNear(l, k, bn.0, bn.1);
  }

  lemma OffsetWithinNear(l: Line, k: int, b0: Point, b1: Point)
    requires l.step > EPS
    requires b0.0 <= PointAt(l, k).0 + HalfDecimal && PointAt(l, k).0 - HalfDecimal <= b1.0
    ensures CalculateK(l, b0) <= k <= CalculateK(l, b1)
  {
    OffsetNear(l.center.0, l.step, k, b0.0, b1.0, PointAt(l, k).0);
    KAlongS(l, b0);
    KAlongS(l, b1);
  }

  /** The rounded boundary abscissae lie within half a decimal outside the
      abscissa of every in-frame lattice point. */
  lemma RoundedBoundsNear(l: Line, f: Rect, k: int)
    requires l.step >= EPS
    requires Abs(l.dt) >= EPS || l.dt == 0.0
    requires ContainsPoint(f, PointAt(l, k))
    ensures BoundaryNodes(RoundedHits(l, f)).Some?
    ensures BoundaryNodes(RoundedHits(l, f)).value.0.0 <= PointAt(l, k).0 + HalfDecimal
    ensures PointAt(l, k).0 - HalfDecimal <= BoundaryNodes(RoundedHits(l, f)).value.1.0
  {
    var hl, hr := HitsAround(l, f, EPS, k);
    var q := PointAt(l, k).0;
    var rl := RoundedMember(l, f, hl);
    var rr := RoundedMember(l, f, hr);
    Round10Monotone(hl.0, q);
    Round10Monotone(q, hr.0);
    EncloseBetween(RoundedHits(l, f), rl, rr, Round10(q));
  }

  /** The rounded image of a hit is among the rounded hits. */
  lemma RoundedMember(l: Line, f: Rect, h: Point) returns (r: Point)
    requires h in Intersections(l, f, EPS)
    ensures r in RoundedHits(l, f) && r == RoundPoint(h)
  {
    var hits := Intersections(l, f, EPS);
    var n :| 0 <= n < |hits| && hits[n] == h;
    r := RoundedHits(l, f)[n];
  }

  /** Rounding moves a boundary abscissa by at most half a decimal, less than
      half a step, so the rounded offsets still enclose the lattice offset. */
  lemma OffsetNear(s0: real, st: real, k: int, sl: real, sr: real, q: real)
    requires st > EPS
    requires q == s0 + k as real * st && sl <= q + HalfDecimal && q - HalfDecimal <= sr
    ensures PyRound((sl - s0) / st) <= k <= PyRound((sr - s0) / st)
  {
    var x := k as real;
    var slack := HalfDecimal / st;
    assert slack < 0.5 by {
      assert HalfDecimal < 0.5 * st;
      DivLeOfMulLe(HalfDecimal, 0.5, st);
    }
    assert slack * st == HalfDecimal;
    DivLeOfMulLe(sl - s0, x + slack, st);
    DivGeOfMulGe(sr - s0, x - slack, st);
  }
}
