/** The axis-aligned space-time frame `[S0, S1] x [T0, T1]` that bounds a
    distributed block. */
module Rectangle {
  import opened Common

  datatype Rect = Rect(S0: real, S1: real, T0: real, T1: real)

  /** The frame has a non-empty extent in both directions. */
  predicate WellFormed(r: Rect) {
    r.S0 <= r.S1 && r.T0 <= r.T1
  }

  /** The midpoint of the frame. */
  function Center(r: Rect): (c: Point)
    ensures c.0 - r.S0 == r.S1 - c.0
    ensures c.1 - r.T0 == r.T1 - c.1
  {
    ((r.S0 + r.S1) / 2.0, (r.T0 + r.T1) / 2.0)
  }

  /** Inclusive containment: every edge and corner belongs to the frame. */
  predicate Contains(r: Rect, s: real, t: real)
    ensures Contains(r, s, t) ==> WellFormed(r)
    ensures WellFormed(r) && (s == r.S0 || s == r.S1) && (t == r.T0 || t == r.T1) ==> Contains(r, s, t)
  {
    r.S0 <= s <= r.S1 && r.T0 <= t <= r.T1
  }

  predicate ContainsPoint(r: Rect, p: Point) {
    Contains(r, p.0, p.1)
  }

  /** A well-formed frame contains its own centre. */
  lemma CenterInside(r: Rect)
    requires WellFormed(r)
    ensures Contains(r, Center(r).0, Center(r).1)
  {
  }

  /** Every corner of a well-formed frame is inside, and a point beyond any
      single edge is outside. */
  lemma ContainsEdges(r: Rect, s: real, t: real)
    requires WellFormed(r)
    ensures Contains(r, r.S0, r.T0) && Contains(r, r.S0, r.T1)
    ensures Contains(r, r.S1, r.T0) && Contains(r, r.S1, r.T1)
    ensures s < r.S0 || s > r.S1 || t < r.T0 || t > r.T1 ==> !Contains(r, s, t)
  {
  }

  /** The frame is convex: the segment between two contained points stays inside. */
  lemma ContainsConvex(r: Rect, a: Point, b: Point, lambda: real)
    requires ContainsPoint(r, a) && ContainsPoint(r, b)
    requires 0.0 <= lambda <= 1.0
    ensures Contains(r, a.0 + lambda * (b.0 - a.0), a.1 + lambda * (b.1 - a.1))
  {
    assert a.0 + lambda * (b.0 - a.0) == (1.0 - lambda) * a.0 + lambda * b.0;
    assert a.1 + lambda * (b.1 - a.1) == (1.0 - lambda) * a.1 + lambda * b.1;
    ConvexCombinationBetween(a.0, b.0, lambda, r.S0, r.S1);
    ConvexCombinationBetween(a.1, b.1, lambda, r.T0, r.T1);
  }

  lemma ConvexCombinationBetween(x: real, y: real, lambda: real, lo: real, hi: real)
    requires lo <= x <= hi && lo <= y <= hi
    requires 0.0 <= lambda <= 1.0
    ensures lo <= (1.0 - lambda) * x + lambda * y <= hi
  {
    var mu := 1.0 - lambda;
    var v := mu * x + lambda * y;
    assert v - lo == mu * (x - lo) + lambda * (y - lo);
    assert hi - v == mu * (hi - x) + lambda * (hi - y);
    MulNonNeg(mu, x - lo);
    MulNonNeg(lambda, y - lo);
    MulNonNeg(mu, hi - x);
    MulNonNeg(lambda, hi - y);
  }

  lemma MulNonNeg(a: real, b: real)
    requires a >= 0.0 && b >= 0.0
    ensures a * b >= 0.0
  {
  }

  /** The example frame `[0,10] x [0,5]`: centre `(5, 2.5)`; `(-1, 2.5)` and
      `(5, 6)` are outside. */
  lemma ExampleFrame()
    ensures Center(Rect(0.0, 10.0, 0.0, 5.0)) == (5.0, 2.5)
    ensures !Contains(Rect(0.0, 10.0, 0.0, 5.0), -1.0, 2.5)
    ensures !Contains(Rect(0.0, 10.0, 0.0, 5.0), 5.0, 6.0)
    ensures Contains(Rect(0.0, 10.0, 0.0, 5.0), 10.0, 0.0)
  {
  }
}
