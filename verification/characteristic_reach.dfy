module CharacteristicReach {
  import opened Common
  import opened Rectangle
  import opened Characteristic

  lemma DivLeOfMulLe(u: real, x: real, d: real)
    requires d > 0.0 && u <= x * d
    ensures u / d <= x
  {
    assert u / d * d == u;
  }

  lemma DivGeOfMulGe(u: real, x: real, d: real)
    requires d > 0.0 && u >= x * d
    ensures u / d >= x
  {
    assert u / d * d == u;
  }

  lemma MulMonoLe(a: real, b: real, d: real)
    requires d > 0.0 && a <= b
    ensures a * d <= b * d
  {
  }

  /** Along a line whose time changes by `d` per unit of offset, a time level
      reached between offsets `a <= x` is crossed at an offset between them;
      the direction of the crossing fixes the sign of `d`. */
  lemma CrossRising(a: real, b: real, x: real, d: real)
    requires a <= x
    requires a * d <= b * d <= x * d && a * d < x * d
    ensures d > 0.0 && a <= b <= x
  {
  }

  lemma CrossFalling(a: real, b: real, x: real, d: real)
    requires a <= x
    requires a * d >= b * d >= x * d && a * d > x * d
    ensures d < 0.0 && a <= b <= x
  {
    CrossRising(a, b, x, -d);
  }

  /** Leaving an in-frame point leftwards, the line meets `s = S0` at offset
      `(S0 - s0)/step`. If its time there is below `T0` it crossed the bottom
      edge first, at an `s` between `S0` and the point. */
  lemma LeftCrossBelow(s0: real, t0: real, st: real, d: real, x: real, S0: real, T0: real)
    requires st > 0.0
    requires S0 <= s0 + x * st && T0 <= t0 + x * d
    requires t0 + (S0 - s0) / st * d < T0
    ensures d != 0.0 && S0 <= s0 + (T0 - t0) / d * st <= s0 + x * st
  {
    var a := (S0 - s0) / st;
    assert a * st == S0 - s0;
    CancelPosLe(a, x, st);
    assert a * d < x * d;
    var b := (T0 - t0) / d;
    assert b * d == T0 - t0;
    CrossRising(a, b, x, d);
    MulMonoLe(a, b, st);
    MulMonoLe(b, x, st);
  }

  /** As `LeftCrossBelow`, through the top edge. */
  lemma LeftCrossAbove(s0: real, t0: real, st: real, d: real, x: real, S0: real, T1: real)
    requires st > 0.0
    requires S0 <= s0 + x * st && t0 + x * d <= T1
    requires t0 + (S0 - s0) / st * d > T1
    ensures d != 0.0 && S0 <= s0 + (T1 - t0) / d * st <= s0 + x * st
  {
    var a := (S0 - s0) / st;
    assert a * st == S0 - s0;
    CancelPosLe(a, x, st);
    assert a * d > x * d;
    var b := (T1 - t0) / d;
    assert b * d == T1 - t0;
    CrossFalling(a, b, x, d);
    MulMonoLe(a, b, st);
    MulMonoLe(b, x, st);
  }

  /** The mirror image of `LeftCrossBelow` towards `s = S1`. */
  lemma RightCrossBelow(s0: real, t0: real, st: real, d: real, x: real, S1: real, T0: real)
    requires st > 0.0
    requires s0 + x * st <= S1 && T0 <= t0 + x * d
    requires t0 + (S1 - s0) / st * d < T0
    ensures d != 0.0 && s0 + x * st <= s0 + (T0 - t0) / d * st <= S1
  {
    var a := (S1 - s0) / st;
    assert a * st == S1 - s0;
    CancelPosLe(x, a, st);
    assert x * d > a * d;
    var b := (T0 - t0) / d;
    assert b * d == T0 - t0;
    CrossFalling(x, b, a, d);
    MulMonoLe(x, b, st);
    MulMonoLe(b, a, st);
  }

  /** The mirror image of `LeftCrossAbove` towards `s = S1`. */
  lemma RightCrossAbove(s0: real, t0: real, st: real, d: real, x: real, S1: real, T1: real)
    requires st > 0.0
    requires s0 + x * st <= S1 && t0 + x * d <= T1
    requires t0 + (S1 - s0) / st * d > T1
    ensures d != 0.0 && s0 + x * st <= s0 + (T1 - t0) / d * st <= S1
  {
    var a := (S1 - s0) / st;
    assert a * st == S1 - s0;
    CancelPosLe(x, a, st);
    assert x * d < a * d;
    var b := (T1 - t0) / d;
    assert b * d == T1 - t0;
    CrossRising(x, b, a, d);
    MulMonoLe(x, b, st);
    MulMonoLe(b, a, st);
  }

  lemma CancelPosLe(a: real, b: real, d: real)
    requires d > 0.0 && a * d <= b * d
    ensures a <= b
  {
  }

  /** The vertical edge `sv` is crossed inside `[T0, T1]`: that crossing is
      the edge's hit. */
  lemma VerticalIn(l: Line, f: Rect, slack: real, sv: real, t: real) returns (e: Edge)
    requires slack >= 0.0 && l.step >= EPS
    requires sv == f.S0 || sv == f.S1
    requires t == l.center.1 + (sv - l.center.0) / l.step * l.dt
    requires f.S0 <= f.S1 && f.T0 <= t <= f.T1
    ensures EdgeHit(l, f, e, slack) == Some((sv, t)) && ContainsPoint(f, (sv, t))
  {
    VerticalHitAt(l, f, slack, sv, t);
    e := if sv == f.S0 then LeftEdge else RightEdge;
  }

  lemma VerticalHitAt(l: Line, f: Rect, slack: real, sv: real, t: real)
    requires slack >= 0.0 && l.step >= EPS
    requires t == l.center.1 + (sv - l.center.0) / l.step * l.dt
    requires f.T0 <= t <= f.T1
    ensures VerticalHit(l, f, sv, slack) == Some((sv, t))
  {
    assert !(Abs(l.step) < EPS);
    assert VerticalHit(l, f, sv, slack).Some?;
    assert VerticalHit(l, f, sv, slack).value.1 == t;
  }

  lemma HorizontalHitAt(l: Line, f: Rect, slack: real, tv: real, s: real)
    requires slack >= 0.0 && Abs(l.dt) >= EPS
    requires s == l.center.0 + (tv - l.center.1) / l.dt * l.step
    requires f.S0 <= s <= f.S1
    ensures HorizontalHit(l, f, tv, slack) == Some((s, tv))
  {
    assert !(Abs(l.dt) < EPS);
    assert HorizontalHit(l, f, tv, slack).Some?;
    assert HorizontalHit(l, f, tv, slack).value.0 == s;
  }

  /** The horizontal edge `tv` is crossed at an `s` inside `[lo, hi]`, itself
      inside `[S0, S1]`: that crossing is the edge's hit. */
  lemma ExitThroughTime(l: Line, f: Rect, slack: real, tv: real, lo: real, hi: real)
    returns (e: Edge, h: Point)
    requires slack >= 0.0 && Abs(l.dt) >= EPS
    requires tv == f.T0 || tv == f.T1
    requires f.T0 <= f.T1 && f.S0 <= lo && hi <= f.S1
    requires lo <= l.center.0 + (tv - l.center.1) / l.dt * l.step <= hi
    ensures EdgeHit(l, f, e, slack) == Some(h) && ContainsPoint(f, h) && lo <= h.0 <= hi
  {
    h := (l.center.0 + (tv - l.center.1) / l.dt * l.step, tv);
    HorizontalHitAt(l, f, slack, tv, h.0);
    e := if tv == f.T0 then BottomEdge else TopEdge;
  }

  /** Walking left from an in-frame point `p` at real offset `x`, the line
      leaves the frame through an edge, on the left of `p`. */
  lemma LeftHitAt(l: Line, f: Rect, slack: real, x: real, p: Point) returns (e: Edge, h: Point)
    requires slack >= 0.0
    requires l.step >= EPS
    requires Abs(l.dt) >= EPS || l.dt == 0.0
    requires p.0 == l.center.0 + x * l.step && p.1 == l.center.1 + x * l.dt && ContainsPoint(f, p)
    ensures EdgeHit(l, f, e, slack) == Some(h) && ContainsPoint(f, h) && h.0 <= p.0
  {
    var ta := l.center.1 + (f.S0 - l.center.0) / l.step * l.dt;
    if f.T0 <= ta <= f.T1 {
      h := (f.S0, ta);
      e := VerticalIn(l, f, slack, f.S0, ta);
    } else if ta < f.T0 {
      e, h := LeftViaBottom(l, f, slack, x, p);
    } else {
      e, h := LeftViaTop(l, f, slack, x, p);
    }
  }

  lemma LeftViaBottom(l: Line, f: Rect, slack: real, x: real, p: Point) returns (e: Edge, h: Point)
    requires slack >= 0.0
    requires l.step >= EPS
    requires Abs(l.dt) >= EPS || l.dt == 0.0
    requires p.0 == l.center.0 + x * l.step && p.1 == l.center.1 + x * l.dt && ContainsPoint(f, p)
    requires l.center.1 + (f.S0 - l.center.0) / l.step * l.dt < f.T0
    ensures EdgeHit(l, f, e, slack) == Some(h) && ContainsPoint(f, h) && h.0 <= p.0
  {
    LeftCrossBelow(l.center.0, l.center.1, l.step, l.dt, x, f.S0, f.T0);
    e, h := ExitThroughTime(l, f, slack, f.T0, f.S0, p.0);
  }

  lemma LeftViaTop(l: Line, f: Rect, slack: real, x: real, p: Point) returns (e: Edge, h: Point)
    requires slack >= 0.0
    requires l.step >= EPS
    requires Abs(l.dt) >= EPS || l.dt == 0.0
    requires p.0 == l.center.0 + x * l.step && p.1 == l.center.1 + x * l.dt && ContainsPoint(f, p)
    requires l.center.1 + (f.S0 - l.center.0) / l.step * l.dt > f.T1
    ensures EdgeHit(l, f, e, slack) == Some(h) && ContainsPoint(f, h) && h.0 <= p.0
  {
    LeftCrossAbove(l.center.0, l.center.1, l.step, l.dt, x, f.S0, f.T1);
    e, h := ExitThroughTime(l, f, slack, f.T1, f.S0, p.0);
  }

  /** The mirror image of `LeftHitAt`: the exit on the right of `p`. */
  lemma RightHitAt(l: Line, f: Rect, slack: real, x: real, p: Point) returns (e: Edge, h: Point)
    requires slack >= 0.0
    requires l.step >= EPS
    requires Abs(l.dt) >= EPS || l.dt == 0.0
    requires p.0 == l.center.0 + x * l.step && p.1 == l.center.1 + x * l.dt && ContainsPoint(f, p)
    ensures EdgeHit(l, f, e, slack) == Some(h) && ContainsPoint(f, h) && h.0 >= p.0
  {
    var ta := l.center.1 + (f.S1 - l.center.0) / l.step * l.dt;
    if f.T0 <= ta <= f.T1 {
      h := (f.S1, ta);
      e := VerticalIn(l, f, slack, f.S1, ta);
    } else if ta < f.T0 {
      e, h := RightViaBottom(l, f, slack, x, p);
    } else {
      e, h := RightViaTop(l, f, slack, x, p);
    }
  }

  lemma RightViaBottom(l: Line, f: Rect, slack: real, x: real, p: Point) returns (e: Edge, h: Point)
    requires slack >= 0.0
    requires l.step >= EPS
    requires Abs(l.dt) >= EPS || l.dt == 0.0
    requires p.0 == l.center.0 + x * l.step && p.1 == l.center.1 + x * l.dt && ContainsPoint(f, p)
    requires l.center.1 + (f.S1 - l.center.0) / l.step * l.dt < f.T0
    ensures EdgeHit(l, f, e, slack) == Some(h) && ContainsPoint(f, h) && h.0 >= p.0
  {
    RightCrossBelow(l.center.0, l.center.1, l.step, l.dt, x, f.S1, f.T0);
    e, h := ExitThroughTime(l, f, slack, f.T0, p.0, f.S1);
  }

  lemma RightViaTop(l: Line, f: Rect, slack: real, x: real, p: Point) returns (e: Edge, h: Point)
    requires slack >= 0.0
    requires l.step >= EPS
    requires Abs(l.dt) >= EPS || l.dt == 0.0
    requires p.0 == l.center.0 + x * l.step && p.1 == l.center.1 + x * l.dt && ContainsPoint(f, p)
    requires l.center.1 + (f.S1 - l.center.0) / l.step * l.dt > f.T1
    ensures EdgeHit(l, f, e, slack) == Some(h) && ContainsPoint(f, h) && h.0 >= p.0
  {
    RightCrossAbove(l.center.0, l.center.1, l.step, l.dt, x, f.S1, f.T1);
    e, h := ExitThroughTime(l, f, slack, f.T1, p.0, f.S1);
  }

  /** An in-frame lattice point of a rightward line has a hit on each side. */
  lemma HitsAround(l: Line, f: Rect, slack: real, k: int) returns (hl: Point, hr: Point)
    requires slack >= 0.0
    requires l.step >= EPS
    requires Abs(l.dt) >= EPS || l.dt == 0.0
    requires ContainsPoint(f, PointAt(l, k))
    ensures hl in Intersections(l, f, slack) && hr in Intersections(l, f, slack)
    ensures hl.0 <= PointAt(l, k).0 <= hr.0
  {
    hl := LeftHitIn(l, f, slack, k);
    hr := RightHitIn(l, f, slack, k);
  }

  lemma LeftHitIn(l: Line, f: Rect, slack: real, k: int) returns (h: Point)
    requires slack >= 0.0
    requires l.step >= EPS
    requires Abs(l.dt) >= EPS || l.dt == 0.0
    requires ContainsPoint(f, PointAt(l, k))
    ensures h in Intersections(l, f, slack) && h.0 <= PointAt(l, k).0
  {
    var p := PointAt(l, k);
    var e;
    e, h := LeftHitAt(l, f, slack, k as real, p);
    HitIn(l, f, slack, EdgeOrder, e, h);
  }

  lemma RightHitIn(l: Line, f: Rect, slack: real, k: int) returns (h: Point)
    requires slack >= 0.0
    requires l.step >= EPS
    requires Abs(l.dt) >= EPS || l.dt == 0.0
    requires ContainsPoint(f, PointAt(l, k))
    ensures h in Intersections(l, f, slack) && h.0 >= PointAt(l, k).0
  {
    var p := PointAt(l, k);
    var e;
    e, h := RightHitAt(l, f, slack, k as real, p);
    HitIn(l, f, slack, EdgeOrder, e, h);
  }

  /** An in-frame lattice point of a rightward line lies between the offsets
      of the two boundary nodes, so the node generation emits it. */
  lemma LatticePointBetweenBounds(l: Line, f: Rect, slack: real, k: int)
    requires slack >= 0.0
    requires l.step >= EPS
    requires Abs(l.dt) >= EPS || l.dt == 0.0
    requires ContainsPoint(f, PointAt(l, k))
    ensures |Intersections(l, f, slack)| > 0
    ensures var b := BoundaryNodes(Intersections(l, f, slack)).value;
      CalculateK(l, b.0) <= k <= CalculateK(l, b.1)
  {
    var hl, hr := HitsAround(l, f, slack, k);
    BoundsEncloseOffset(l, Intersections(l, f, slack), hl, hr, k);
  }

  /** When points of `hits` lie on both sides of a lattice point, its offset
      lies between those of the first and last hit by `s`. */
  lemma BoundsEncloseOffset(l: Line, hits: seq<Point>, hl: Point, hr: Point, k: int)
    requires l.step >= EPS
    requires hl in hits && hr in hits && hl.0 <= PointAt(l, k).0 <= hr.0
    ensures |hits| > 0
    ensures var b := BoundaryNodes(hits).value;
      CalculateK(l, b.0) <= k <= CalculateK(l, b.1)
  {
    EncloseBetween(hits, hl, hr, PointAt(l, k).0);
    var b := BoundaryNodes(hits).value;
    OffsetWithin(l, k, b.0, b.1);
  }

  /** A lattice point between two points in `s` has its offset between theirs. */
  lemma OffsetWithin(l: Line, k: int, b0: Point, b1: Point)
    requires l.step >= EPS
    requires b0.0 <= PointAt(l, k).0 <= b1.0
    ensures CalculateK(l, b0) <= k <= CalculateK(l, b1)
  {
    OffsetBetween(l.center.0, l.step, k, b0.0, b1.0, PointAt(l, k).0);
    KAlongS(l, b0);
    KAlongS(l, b1);
  }

  lemma EncloseBetween(hits: seq<Point>, hl: Point, hr: Point, s: real)
    requires hl in hits && hr in hits && hl.0 <= s <= hr.0
    ensures BoundaryNodes(hits).Some?
    ensures BoundaryNodes(hits).value.0.0 <= s <= BoundaryNodes(hits).value.1.0
  {
  }

  /** A lattice offset whose `s` lies between two abscissae lies between their
      rounded offsets. */
  lemma OffsetBetween(s0: real, st: real, k: int, sl: real, sr: real, q: real)
    requires st > 0.0
    requires q == s0 + k as real * st && sl <= q <= sr
    ensures PyRound((sl - s0) / st) <= k <= PyRound((sr - s0) / st)
  {
    var x := k as real;
    DivLeOfMulLe(sl - s0, x, st);
    DivGeOfMulGe(sr - s0, x, st);
    PyRoundMonotone((sl - s0) / st, x);
    PyRoundMonotone(x, (sr - s0) / st);
    PyRoundOfInt(k);
  }

  /** A line that moves in `s` measures offsets along `s`. */
  lemma KAlongS(l: Line, p: Point)
    requires Abs(l.step) >= EPS
    ensures CalculateK(l, p) == PyRound((p.0 - l.center.0) / l.step)
  {
  }
}
