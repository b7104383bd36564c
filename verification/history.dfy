/** The recorded history of a concentrated block, a list of `(time, value)`
    samples, and the read-back both the function block and the ODE block use:
    the value at the first sample whose time is not before `t`, linearly
    interpolated from the sample before it, clamped to the first and last
    sample outside the recorded span. */
module History {
  import opened Common

  type Sample = (real, real)

  /** The index of the first sample at or after `t`, if any. */
  function FirstAtOrAfter(h: seq<Sample>, t: real): (r: Option<nat>)
    ensures r.Some? ==> r.value < |h| && h[r.value].0 >= t
    ensures r.Some? ==> forall j :: 0 <= j < r.value ==> h[j].0 < t
    ensures r.None? <==> forall j :: 0 <= j < |h| ==> h[j].0 < t
  {
    if |h| == 0 then None
    else if h[0].0 >= t then Some(0)
    else
      match FirstAtOrAfter(h[1..], t)
      case None => None
      case Some(i) => Some(i + 1)
  }

  /** The straight line through `p` and `q`, read at `t`. */
  function Lerp(t: real, p: Sample, q: Sample): real
    requires p.0 < q.0
  {
    p.1 + (t - p.0) / (q.0 - p.0) * (q.1 - p.1)
  }

  /** The read-back; `None` for an empty history. The sample before the
      first one at or after `t` lies strictly before `t`, so the
      interpolation never divides by zero. */
  function ValueAt(h: seq<Sample>, t: real): (r: Option<real>)
    ensures r.None? <==> |h| == 0
  {
    if |h| == 0 then None
    else
      match FirstAtOrAfter(h, t)
      case None => Some(h[|h| - 1].1)
      case Some(i) =>
        if i == 0 then Some(h[0].1)
        else Some(Lerp(t, h[i - 1], h[i]))
  }

  predicate Increasing(h: seq<Sample>) {
    forall i, j :: 0 <= i < j < |h| ==> h[i].0 < h[j].0
  }

  /** Before (or at) the first sample the first value is returned, after the
      last sample the last value. */
  lemma ValueAtClamps(h: seq<Sample>, t: real)
    requires |h| > 0
    ensures t <= h[0].0 ==> ValueAt(h, t) == Some(h[0].1)
    ensures (forall j :: 0 <= j < |h| ==> h[j].0 < t) ==> ValueAt(h, t) == Some(h[|h| - 1].1)
  {
  }

  /** On a history with increasing times, reading back at a recorded time
      returns the value recorded there. */
  lemma ValueAtRecorded(h: seq<Sample>, k: int)
    requires Increasing(h) && 0 <= k < |h|
    ensures ValueAt(h, h[k].0) == Some(h[k].1)
  {
    var t := h[k].0;
    var i := FirstAtOrAfter(h, t).value;
    assert i <= k;
    if i > 0 {
      assert i == k;
      var p := h[i - 1];
      assert (t - p.0) / (h[i].0 - p.0) == 1.0;
      assert Lerp(t, p, h[i]) == h[i].1;
      assert ValueAt(h, t).value == h[i].1;
    } else {
      assert ValueAt(h, t).value == h[0].1;
    }
  }

  /** An interpolated value lies between the two samples it comes from. */
  lemma ValueAtBetween(h: seq<Sample>, t: real)
    requires |h| > 0
    requires FirstAtOrAfter(h, t).Some? && FirstAtOrAfter(h, t).value > 0
    ensures var i := FirstAtOrAfter(h, t).value;
      var lo := if h[i - 1].1 <= h[i].1 then h[i - 1].1 else h[i].1;
      var hi := if h[i - 1].1 <= h[i].1 then h[i].1 else h[i - 1].1;
      lo <= ValueAt(h, t).value <= hi
  {
    var i := FirstAtOrAfter(h, t).value;
    LerpBetween(t, h[i - 1], h[i]);
  }

  lemma LerpBetween(t: real, p: Sample, q: Sample)
    requires p.0 < t <= q.0
    ensures p.1 <= q.1 ==> p.1 <= Lerp(t, p, q) <= q.1
    ensures q.1 <= p.1 ==> q.1 <= Lerp(t, p, q) <= p.1
  {
    var a := (t - p.0) / (q.0 - p.0);
    assert 0.0 < a <= 1.0 by {
      assert t - p.0 <= q.0 - p.0;
    }
    if p.1 <= q.1 {
      assert a * (q.1 - p.1) <= q.1 - p.1 by { MulAtMostOne(a, q.1 - p.1); }
    } else {
      assert a * (p.1 - q.1) <= p.1 - q.1 by { MulAtMostOne(a, p.1 - q.1); }
    }
  }

  lemma MulAtMostOne(a: real, d: real)
    requires 0.0 < a <= 1.0 && d >= 0.0
    ensures 0.0 <= a * d <= d
  {
  }

  /** A history sampled from a straight line reads back that line anywhere
      within its recorded span. */
  lemma {:induction false} ValueAtLinear(h: seq<Sample>, a: real, b: real, t: real)
    requires |h| > 0
    requires forall j :: 0 <= j < |h| ==> h[j].1 == a + b * h[j].0
    requires h[0].0 <= t <= h[|h| - 1].0
    ensures ValueAt(h, t) == Some(a + b * t)
  {
    var i := FirstAtOrAfter(h, t).value;
    if i == 0 {
      assert t == h[0].0;
      assert h[0].1 == a + b * t;
      assert ValueAt(h, t).value == h[0].1;
    } else {
      LerpLinear(t, h[i - 1], h[i], a, b);
      assert ValueAt(h, t).value == Lerp(t, h[i - 1], h[i]);
    }
  }

  lemma LerpLinear(t: real, p: Sample, q: Sample, a: real, b: real)
    requires p.0 < q.0 && p.1 == a + b * p.0 && q.1 == a + b * q.0
    ensures Lerp(t, p, q) == a + b * t
  {
    var d := q.0 - p.0;
    assert q.1 - p.1 == b * d;
    assert (t - p.0) / d * (b * d) == b * (t - p.0);
  }

  /** Times never go backwards; equal times are allowed. */
  predicate NonDecreasing(h: seq<Sample>) {
    forall i, j :: 0 <= i <= j < |h| ==> h[i].0 <= h[j].0
  }

  /** Every sample records the value of `g` at its own time. */
  predicate OnGraph(h: seq<Sample>, g: real -> real) {
    forall j :: 0 <= j < |h| ==> h[j].1 == g(h[j].0)
  }

  /** A history whose samples lie on the graph of `g`, in non-decreasing
      time order, reads back `g` at every recorded time, even when a time
      is recorded twice. */
  lemma ValueAtOnGraph(h: seq<Sample>, g: real -> real, k: int)
    requires NonDecreasing(h) && OnGraph(h, g) && 0 <= k < |h|
    ensures ValueAt(h, h[k].0) == Some(g(h[k].0))
  {
    var t := h[k].0;
    var i := FirstAtOrAfter(h, t).value;
    assert i <= k;
    assert h[i].0 == t;
    if i > 0 {
      var p := h[i - 1];
      assert (t - p.0) / (h[i].0 - p.0) == 1.0;
      assert Lerp(t, p, h[i]) == h[i].1;
      assert ValueAt(h, t).value == h[i].1;
    } else {
      assert ValueAt(h, t).value == h[0].1;
    }
  }
}
