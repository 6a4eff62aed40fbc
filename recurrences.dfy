// Reference definitions of the recursive digital filters: the Lyne-Hollick
// two-pass filter and the one-pass Chapman, Chapman-Maxwell, Boughton, Furey,
// Eckhardt, EWMA and Willems filters. Every filter starts from b[0] = Q[0]
// and clips each new estimate against the discharge it is compared with.

module Recurrences {
  import opened Series

  /** A filter with its coefficients. */
  datatype Filter =
    | LyneHollick(beta: real)
    | Chapman(a: real)
    | ChapmanMaxwell(a: real)
    | Boughton(a: real, c: real)
    | Furey(a: real, gamma: real)
    | Eckhardt(a: real, bfiMax: real)
    | Ewma(e: real)
    | Willems(a: real, w: real)

  /** Willems' derived weight v = (1 - w)(1 - a) / (2w). */
  function WillemsV(a: real, w: real): real
    requires w != 0.0
  {
    (1.0 - w) * (1.0 - a) / (2.0 * w)
  }

  /** Eckhardt's denominator 1 - a * BFImax. */
  function EckhardtDenominator(a: real, bfiMax: real): real {
    1.0 - a * bfiMax
  }

  /** No denominator of the filter's recurrence is zero. */
  predicate Defined(f: Filter) {
    match f
    case Chapman(a) => 3.0 - a != 0.0
    case ChapmanMaxwell(a) => 2.0 - a != 0.0
    case Boughton(_, c) => 1.0 + c != 0.0
    case Eckhardt(a, bfiMax) => EckhardtDenominator(a, bfiMax) != 0.0
    case Willems(a, w) => w != 0.0 && 1.0 + WillemsV(a, w) != 0.0
    case _ => true
  }

  /** The estimate of b[i+1], before the clip, from the previous estimate
      `prev` = b[i] and the discharges q0 = Q[i] and q1 = Q[i+1]. */
  function Step(f: Filter, prev: real, q0: real, q1: real): real
    requires Defined(f)
  {
    match f
    case LyneHollick(beta) => beta * prev + (1.0 - beta) / 2.0 * (q0 + q1)
    case Chapman(a) => (3.0 * a - 1.0) / (3.0 - a) * prev + (1.0 - a) / (3.0 - a) * (q1 + q0)
    case ChapmanMaxwell(a) => a / (2.0 - a) * prev + (1.0 - a) / (2.0 - a) * q1
    case Boughton(a, c) => a / (1.0 + c) * prev + c / (1.0 + c) * q1
    case Furey(a, gamma) => (a - gamma * (1.0 - a)) * prev + gamma * (1.0 - a) * q0
    case Eckhardt(a, bfiMax) => ((1.0 - bfiMax) * a * prev + (1.0 - a) * bfiMax * q1) / EckhardtDenominator(a, bfiMax)
    case Ewma(e) => (1.0 - e) * prev + e * q1
    case Willems(a, w) =>
      var v := WillemsV(a, w);
      (a - v) / (1.0 + v) * prev + v / (1.0 + v) * (q0 + q1)
  }

  /** The first `n` samples of filter `f` run forward over `Q`. */
  function Forward(f: Filter, Q: seq<real>, n: nat): (b: seq<real>)
    requires Defined(f) && 1 <= n <= |Q|
    ensures |b| == n && b[0] == Q[0]
    ensures forall i :: 0 <= i < n ==> b[i] <= Q[i]
    decreases n
  {
    if n == 1 then [Q[0]]
    else
      var p := Forward(f, Q, n - 1);
      p + [Clip(Step(f, p[n - 2], Q[n - 2], Q[n - 1]), Q[n - 1])]
  }

  /** The one-pass filter over the whole series. */
  function OnePass(f: Filter, Q: seq<real>): seq<real>
    requires Defined(f) && |Q| >= 1
  {
    Forward(f, Q, |Q|)
  }

  /** Sample i of the Lyne-Hollick backward pass over the forward result
      `fwd`: the pass starts from the last forward value and runs down,
      averaging neighbouring forward values and clipping against the forward
      value at the same index. */
  function BackwardAt(beta: real, fwd: seq<real>, i: nat): (r: real)
    requires i < |fwd|
    ensures r <= fwd[i]
    decreases |fwd| - i
  {
    if i == |fwd| - 1 then fwd[i]
    else Clip(Step(LyneHollick(beta), BackwardAt(beta, fwd, i + 1), fwd[i + 1], fwd[i]), fwd[i])
  }

  /** The two-pass Lyne-Hollick filter. */
  function LyneHollickFilter(beta: real, Q: seq<real>): (b: seq<real>)
    requires |Q| >= 1
  {
    var fwd := Forward(LyneHollick(beta), Q, |Q|);
    seq(|Q|, i requires 0 <= i < |Q| => BackwardAt(beta, fwd, i))
  }

  /** The backward pass never rises above the forward pass, the forward pass
      never rises above the discharge and starts at it, and both passes agree
      on the last sample. */
  lemma LyneHollickBounds(beta: real, Q: seq<real>)
    requires |Q| >= 1
    ensures var fwd := Forward(LyneHollick(beta), Q, |Q|);
            var b := LyneHollickFilter(beta, Q);
            |b| == |Q| && fwd[0] == Q[0] && b[|Q| - 1] == fwd[|Q| - 1] &&
            forall i :: 0 <= i < |Q| ==> b[i] <= fwd[i] <= Q[i]
  {
  }

  /** A filter that leaves a level `c` unchanged in one step leaves a
      constant series at `c` unchanged. */
  lemma {:induction false} ForwardFixedPoint(f: Filter, c: real, n: nat)
    requires Defined(f) && n >= 1
    requires Step(f, c, c, c) == c
    ensures Forward(f, Constant(c, n), n) == Constant(c, n)
  {
    if n > 1 {
      ForwardFixedPoint(f, c, n - 1);
      var Q := Constant(c, n);
      assert Forward(f, Q, n - 1) == Forward(f, Constant(c, n - 1), n - 1) by {
        ForwardPrefix(f, Q, Constant(c, n - 1), n - 1);
      }
      assert Forward(f, Q, n) == Constant(c, n - 1) + [c];
    }
  }

  /** The first `n` outputs of a one-pass filter depend on the first `n`
      discharge samples only. */
  lemma {:induction false} ForwardPrefix(f: Filter, Q: seq<real>, R: seq<real>, n: nat)
    requires Defined(f) && 1 <= n <= |Q| && n <= |R|
    requires Q[..n] == R[..n]
    ensures Forward(f, Q, n) == Forward(f, R, n)
    decreases n
  {
    assert Q[0] == Q[..n][0] && R[0] == R[..n][0];
    if n > 1 {
      assert Q[..n - 1] == Q[..n][..n - 1] && R[..n - 1] == R[..n][..n - 1];
      ForwardPrefix(f, Q, R, n - 1);
      assert Q[n - 2] == Q[..n][n - 2] && R[n - 2] == R[..n][n - 2];
      assert Q[n - 1] == Q[..n][n - 1] && R[n - 1] == R[..n][n - 1];
    }
  }

  /** The backward pass over a constant forward result is that constant. */
  lemma {:induction false} BackwardConstant(beta: real, c: real, n: nat, i: nat)
    requires i < n
    ensures BackwardAt(beta, Constant(c, n), i) == c
    decreases n - i
  {
    if i < n - 1 {
      BackwardConstant(beta, c, n, i + 1);
      assert Step(LyneHollick(beta), c, c, c) == c;
    }
  }

  /** A constant discharge series passes through Lyne-Hollick unchanged: in
      steady state there is no quickflow. */
  lemma LyneHollickConstant(beta: real, c: real, n: nat)
    requires n >= 1
    ensures LyneHollickFilter(beta, Constant(c, n)) == Constant(c, n)
  {
    assert Step(LyneHollick(beta), c, c, c) == c;
    ForwardFixedPoint(LyneHollick(beta), c, n);
    forall i | 0 <= i < n
      ensures LyneHollickFilter(beta, Constant(c, n))[i] == c
    {
      BackwardConstant(beta, c, n, i);
    }
  }

  /** A constant discharge series passes through EWMA unchanged, since
      (1 - e)c + ec = c. */
  lemma EwmaConstant(e: real, c: real, n: nat)
    requires n >= 1
    ensures OnePass(Ewma(e), Constant(c, n)) == Constant(c, n)
  {
    assert Step(Ewma(e), c, c, c) == c;
    ForwardFixedPoint(Ewma(e), c, n);
  }

  /** With a smoothing factor in [0, 1], EWMA keeps a non-negative discharge
      series non-negative. */
  lemma {:induction false} EwmaNonNegative(e: real, Q: seq<real>, n: nat)
    requires 0.0 <= e <= 1.0 && 1 <= n <= |Q|
    requires forall i :: 0 <= i < |Q| ==> Q[i] >= 0.0
    ensures forall i :: 0 <= i < n ==> Forward(Ewma(e), Q, n)[i] >= 0.0
    decreases n
  {
    if n > 1 {
      EwmaNonNegative(e, Q, n - 1);
      var p := Forward(Ewma(e), Q, n - 1);
      EwmaStepNonNegative(e, p[n - 2], Q[n - 2], Q[n - 1]);
      var b := Forward(Ewma(e), Q, n);
      assert b == p + [Clip(Step(Ewma(e), p[n - 2], Q[n - 2], Q[n - 1]), Q[n - 1])];
      forall i | 0 <= i < n
        ensures b[i] >= 0.0
      {
        if i < n - 1 {
          assert b[i] == p[i];
        }
      }
    }
  }

  /** One clipped EWMA step from a non-negative estimate towards a
      non-negative discharge stays non-negative. */
  lemma EwmaStepNonNegative(e: real, prev: real, q0: real, q1: real)
    requires 0.0 <= e <= 1.0 && prev >= 0.0 && q1 >= 0.0
    ensures Clip(Step(Ewma(e), prev, q0, q1), q1) >= 0.0
  {
    assert (1.0 - e) * prev >= 0.0;
    assert e * q1 >= 0.0;
  }
}
