// Reference definition of the piecewise-linear interpolation between turning
// points that the UKIH and local-minimum methods share.

module Interpolation {
  import opened Series

  /** The straight line through (t[k], Q[t[k]]) and (t[k+1], Q[t[k+1]]),
      evaluated at index i. */
  function Line(Q: seq<real>, t: seq<int>, k: nat, i: int): real
    requires TurningIndices(t, |Q|) && k + 1 < |t|
  {
    Q[t[k]] + (Q[t[k + 1]] - Q[t[k]]) / ((t[k + 1] - t[k]) as real) * ((i - t[k]) as real)
  }

  /** `b` interpolates `Q` between the turning points `t`: at a turning point
      it is the discharge there, and strictly between two consecutive turning
      points it is the line through them, clipped to the discharge. */
  predicate InterpolatedOn(Q: seq<real>, t: seq<int>, b: seq<real>)
    requires TurningIndices(t, |Q|) && |b| == |Q|
  {
    (forall k :: 0 <= k < |t| ==> b[t[k]] == Q[t[k]]) &&
    (forall k, i {:trigger Line(Q, t, k, i)} ::
       0 <= k < |t| - 1 && t[k] < i < t[k + 1] ==> b[i] == Clip(Line(Q, t, k, i), Q[i]))
  }

  /** The segment of index i: the last turning point at or before i. */
  ghost function SegmentIndex(t: seq<int>, i: int): (k: nat)
    requires StrictlyIncreasing(t) && |t| > 0 && t[0] <= i <= t[|t| - 1]
    ensures k < |t| && t[k] <= i && (k + 1 < |t| ==> i < t[k + 1])
  {
    SegmentExists(t, i);
    var k: nat :| k < |t| && t[k] <= i && (k + 1 < |t| ==> i < t[k + 1]);
    k
  }

  /** The interpolated value at index i from the first turning point on:
      the discharge at a turning point, and the line of its segment clipped
      to the discharge elsewhere. */
  ghost function InterpolatedAt(Q: seq<real>, t: seq<int>, i: int): real
    requires TurningIndices(t, |Q|) && |t| > 0 && t[0] <= i <= t[|t| - 1]
  {
    var k := SegmentIndex(t, i);
    if i == t[k] then Q[i] else Clip(Line(Q, t, k, i), Q[i])
  }

  /** `b` is zero before the first and after the last turning point. */
  predicate ZeroOutside(t: seq<int>, b: seq<real>)
    requires |t| > 0
  {
    forall i :: 0 <= i < |b| && (i < t[0] || t[|t| - 1] < i) ==> b[i] == 0.0
  }

  /** `b` interpolates `Q` on `t` and equals `edge` before the first and
      after the last turning point. */
  predicate EdgeFilled(Q: seq<real>, edge: seq<real>, t: seq<int>, b: seq<real>)
    requires TurningIndices(t, |Q|) && |t| > 0 && |b| == |Q| && |edge| == |Q|
  {
    InterpolatedOn(Q, t, b) &&
    (forall i :: 0 <= i < t[0] ==> b[i] == edge[i]) &&
    (forall i :: t[|t| - 1] < i < |Q| ==> b[i] == edge[i])
  }

  /** Whether `b` interpolates `Q` on `t` depends only on the samples from
      the first to the last turning point. */
  lemma InterpolatedOnFrame(Q: seq<real>, t: seq<int>, b1: seq<real>, b2: seq<real>)
    requires TurningIndices(t, |Q|) && |t| > 0 && |b1| == |Q| && |b2| == |Q|
    requires InterpolatedOn(Q, t, b1)
    requires forall i :: t[0] <= i <= t[|t| - 1] ==> b2[i] == b1[i]
    ensures InterpolatedOn(Q, t, b2)
  {
    forall k | 0 <= k < |t|
      ensures t[0] <= t[k] <= t[|t| - 1]
    {
      if 0 < k { assert t[0] < t[k]; }
      if k < |t| - 1 { assert t[k] < t[|t| - 1]; }
    }
  }

  function Max(x: real, y: real): real { if x >= y then x else y }

  /** The line of segment k passes through both of its turning points. */
  lemma LineThroughTurningPoints(Q: seq<real>, t: seq<int>, k: nat)
    requires TurningIndices(t, |Q|) && k + 1 < |t|
    ensures Line(Q, t, k, t[k]) == Q[t[k]]
    ensures Line(Q, t, k, t[k + 1]) == Q[t[k + 1]]
  {
    var len := (t[k + 1] - t[k]) as real;
    var slope := (Q[t[k + 1]] - Q[t[k]]) / len;
    assert slope * len == Q[t[k + 1]] - Q[t[k]];
  }

  /** Within its segment the line stays between the discharges at the two
      turning points (the lower of the two is one clipped to the other). */
  lemma LineBetween(Q: seq<real>, t: seq<int>, k: nat, i: int)
    requires TurningIndices(t, |Q|) && k + 1 < |t|
    requires t[k] <= i <= t[k + 1]
    ensures Clip(Q[t[k]], Q[t[k + 1]]) <= Line(Q, t, k, i) <= Max(Q[t[k]], Q[t[k + 1]])
  {
    var len := (t[k + 1] - t[k]) as real;
    var x := (i - t[k]) as real;
    var d := Q[t[k + 1]] - Q[t[k]];
    var slope := d / len;
    assert slope * len == d;
    assert slope * x + slope * (len - x) == slope * len;
    ProductSign(slope, x);
    ProductSign(slope, len - x);
    if d < 0.0 {
      assert slope < 0.0;
    }
  }

  /** A product with a non-negative factor takes the sign of the other. */
  lemma ProductSign(a: real, x: real)
    requires x >= 0.0
    ensures a >= 0.0 ==> a * x >= 0.0
    ensures a <= 0.0 ==> a * x <= 0.0
  {
  }

  /** Segment n is the segment of every index from t[n] up to the next
      turning point. */
  lemma SegmentIndexUnique(t: seq<int>, n: nat, i: int)
    requires StrictlyIncreasing(t) && n < |t| && t[n] <= i <= t[|t| - 1] && (n + 1 < |t| ==> i < t[n + 1])
    ensures SegmentIndex(t, i) == n
  {
  }

  /** A series that takes the interpolated value at every index from the
      first to the last turning point interpolates Q on t. */
  lemma PointwiseInterpolated(Q: seq<real>, t: seq<int>, b: seq<real>)
    requires TurningIndices(t, |Q|) && |t| > 0 && |b| == |Q|
    requires forall i :: t[0] <= i <= t[|t| - 1] ==> b[i] == InterpolatedAt(Q, t, i)
    ensures InterpolatedOn(Q, t, b)
  {
    forall k | 0 <= k < |t|
      ensures b[t[k]] == Q[t[k]]
    {
      if 0 < k { assert t[0] < t[k]; }
      if k < |t| - 1 { assert t[k] < t[|t| - 1]; }
      SegmentIndexUnique(t, k, t[k]);
    }
    forall k, i | 0 <= k < |t| - 1 && t[k] < i < t[k + 1]
      ensures b[i] == Clip(Line(Q, t, k, i), Q[i])
    {
      if 0 < k { assert t[0] < t[k]; }
      if k + 1 < |t| - 1 { assert t[k + 1] < t[|t| - 1]; }
      SegmentIndexUnique(t, k, i);
    }
  }

  /** Every index from the first to the last turning point is a turning point
      or lies strictly inside one segment. */
  lemma {:induction false} SegmentOf(t: seq<int>, i: int) returns (k: nat)
    requires StrictlyIncreasing(t) && |t| > 0 && t[0] <= i <= t[|t| - 1]
    ensures k < |t|
    ensures t[k] == i || (k + 1 < |t| && t[k] < i < t[k + 1])
  {
    var last := |t| - 1;
    if i == t[last] {
      k := last;
    } else if t[last - 1] <= i {
      k := last - 1;
    } else {
      k := SegmentOf(t[..last], i);
    }
  }

  /** Every index from the first to the last turning point has a segment. */
  lemma SegmentExists(t: seq<int>, i: int)
    requires StrictlyIncreasing(t) && |t| > 0 && t[0] <= i <= t[|t| - 1]
    ensures exists k: nat :: k < |t| && t[k] <= i && (k + 1 < |t| ==> i < t[k + 1])
  {
    var k := SegmentOf(t, i);
    assert k + 1 < |t| ==> i < t[k + 1];
  }

  /** On the range it interpolates, `b` never rises above the discharge, and
      between two turning points never above the higher of their discharges. */
  lemma InterpolatedBelow(Q: seq<real>, t: seq<int>, b: seq<real>)
    requires TurningIndices(t, |Q|) && |t| > 0 && |b| == |Q|
    requires InterpolatedOn(Q, t, b)
    ensures forall i :: t[0] <= i <= t[|t| - 1] ==> b[i] <= Q[i]
    ensures forall k, i :: 0 <= k < |t| - 1 && t[k] < i < t[k + 1] ==> b[i] <= Max(Q[t[k]], Q[t[k + 1]])
  {
    forall i | t[0] <= i <= t[|t| - 1]
      ensures b[i] <= Q[i]
    {
      var k := SegmentOf(t, i);
      if t[k] != i {
        assert b[i] == Clip(Line(Q, t, k, i), Q[i]);
      }
    }
    forall k, i | 0 <= k < |t| - 1 && t[k] < i < t[k + 1]
      ensures b[i] <= Max(Q[t[k]], Q[t[k + 1]])
    {
      assert b[i] == Clip(Line(Q, t, k, i), Q[i]);
      LineBetween(Q, t, k, i);
    }
  }

  /** The interpolation is determined by the discharge and the turning points:
      two series that both interpolate `Q` on `t` and are zero outside it are
      equal. */
  lemma InterpolationUnique(Q: seq<real>, t: seq<int>, b1: seq<real>, b2: seq<real>)
    requires TurningIndices(t, |Q|) && |t| > 0 && |b1| == |Q| && |b2| == |Q|
    requires InterpolatedOn(Q, t, b1) && ZeroOutside(t, b1)
    requires InterpolatedOn(Q, t, b2) && ZeroOutside(t, b2)
    ensures b1 == b2
  {
    forall i | 0 <= i < |Q|
      ensures b1[i] == b2[i]
    {
      if t[0] <= i <= t[|t| - 1] {
        var k := SegmentOf(t, i);
        if t[k] != i {
          assert b1[i] == Clip(Line(Q, t, k, i), Q[i]) == b2[i];
        }
      }
    }
  }
}
