// The baseflow separation methods. Each method takes the discharge series Q,
// allocates a baseflow array b of the same length and fills it in place with
// index loops; its postcondition ties b to the reference definitions in the
// Recurrences, Interpolation, TurningPoints and Intervals modules.

module BaseflowCalculator {
  import opened Series
  import opened Recurrences
  import opened Interpolation
  import opened TurningPoints
  import opened Intervals

  datatype Option<T> = None | Some(value: T)

  /** Default recession coefficient and maximum baseflow index. */
  const DefaultAlpha: real := 0.925
  const DefaultBFImax: real := 0.8

  /** Default parameters of the Boughton, EWMA and Willems filters. */
  const DefaultBoughtonC: real := 0.1
  const DefaultEwmaE: real := 0.05
  const DefaultWillemsW: real := 0.5

  /** Every filter's denominators are non-zero at the default parameters. */
  lemma DefaultsDefined()
    ensures Defined(Chapman(DefaultAlpha)) && Defined(ChapmanMaxwell(DefaultAlpha))
    ensures Defined(Boughton(DefaultAlpha, DefaultBoughtonC))
    ensures Defined(Eckhardt(DefaultAlpha, DefaultBFImax))
    ensures Defined(Willems(DefaultAlpha, DefaultWillemsW))
  {
    assert WillemsV(DefaultAlpha, DefaultWillemsW) == 0.0375;
  }

  /** At its default smoothing factor, EWMA keeps a non-negative discharge
      series non-negative. */
  lemma DefaultEwmaNonNegative(Q: seq<real>)
    requires |Q| >= 1 && forall i :: 0 <= i < |Q| ==> Q[i] >= 0.0
    ensures forall i :: 0 <= i < |Q| ==> OnePass(Ewma(DefaultEwmaE), Q)[i] >= 0.0
  {
    EwmaNonNegative(DefaultEwmaE, Q, |Q|);
  }

  /** Smallest integer not below x. */
  function Ceil(x: real): (c: int)
    ensures x <= c as real < x + 1.0
  {
    -((-x).Floor)
  }

  /** The HYSEP interval N', an odd window width in [3, 11]. `hysepN` is
      None when the basin area is unknown, and otherwise the value
      N = (0.3861022 * area)^0.2 computed from the area in km^2. The result
      is the odd integer nearest to 2N (the lower one on a tie), clamped to
      [3, 11]; with no area N is 5 and the width is 9. */
  function HysepInterval(hysepN: Option<real>): (w: int)
    ensures 3 <= w <= 11 && w % 2 == 1
    ensures hysepN.None? ==> w == 9
    ensures hysepN.Some? && hysepN.value <= 1.0 ==> w == 3
    ensures hysepN.Some? && hysepN.value > 6.0 ==> w == 11
    ensures hysepN.Some? && 1.0 < hysepN.value <= 6.0 ==>
              2.0 * hysepN.value - 1.0 <= w as real < 2.0 * hysepN.value + 1.0
  {
    var n := if hysepN.None? then 5.0 else hysepN.value;
    var inN := if Ceil(2.0 * n) % 2 == 0 then Ceil(2.0 * n) - 1 else Ceil(2.0 * n);
    if inN < 3 then 3 else if inN > 11 then 11 else inN
  }

  lemma CeilMonotone(x: real, y: real)
    requires x <= y
    ensures Ceil(x) <= Ceil(y)
  {
    assert (Ceil(x) - 1) as real < x <= y <= Ceil(y) as real;
  }

  /** A larger N never gives a narrower HYSEP interval. */
  lemma HysepIntervalMonotone(x: real, y: real)
    requires x <= y
    ensures HysepInterval(Some(x)) <= HysepInterval(Some(y))
  {
    CeilMonotone(2.0 * x, 2.0 * y);
  }

  /** The minimum of Q[lo..hi), found by a left-to-right scan. */
  method RangeMin(Q: seq<real>, lo: nat, hi: nat) returns (m: real)
    requires lo < hi <= |Q|
    ensures m == SeqMin(Q[lo..hi])
  {
    m := Q[lo];
    ghost var at := lo;
    for j := lo + 1 to hi
      invariant lo <= at < j && m == Q[at]
      invariant forall p :: lo <= p < j ==> m <= Q[p]
    {
      if Q[j] < m {
        m := Q[j];
        at := j;
      }
    }
    SeqMinAt(Q[lo..hi], at - lo);
  }

  /** One step of the interpolation walk at index i with cursor n on the
      current segment: the cursor moves on when i reaches the next turning
      point, and the value is the discharge there or the segment's line
      inside it, clipped to the discharge. */
  method SegmentValue(Q: seq<real>, t: seq<int>, n: nat, i: int) returns (m: nat, v: real)
    requires TurningIndices(t, |Q|) && n < |t| && t[n] <= i <= t[|t| - 1]
    requires n < |t| - 1 ==> i <= t[n + 1]
    ensures m == SegmentIndex(t, i)
    ensures v == InterpolatedAt(Q, t, i)
  {
    m := n;
    if n < |t| - 1 && i == t[n + 1] {
      m := n + 1;
      v := Q[i];
    } else if n < |t| - 1 {
      v := Line(Q, t, n, i);
    } else {
      v := Q[i];
    }
    if v > Q[i] {
      v := Q[i];
    }
    if m < |t| - 1 && i == t[m] {
      assert t[m] < t[m + 1];
    }
    SegmentIndexUnique(t, m, i);
  }

  /** Interpolates Q linearly between the turning points t, walking the range
      from the first to the last turning point with a cursor n on the current
      segment; every other sample stays zero. */
  method LinearInterpolation(Q: seq<real>, t: seq<int>) returns (b: array<real>)
    requires TurningIndices(t, |Q|)
    ensures fresh(b) && b.Length == |Q|
    ensures |t| == 0 ==> forall i :: 0 <= i < |Q| ==> b[i] == 0.0
    ensures |t| > 0 ==> InterpolatedOn(Q, t, b[..]) && ZeroOutside(t, b[..])
  {
    b := new real[|Q|](_ => 0.0);
    if |t| == 0 {
      return;
    }
    var n := 0;
    var i := t[0];
    while i <= t[|t| - 1]
      invariant 0 <= n < |t| && t[n] <= i <= t[|t| - 1] + 1
      invariant n < |t| - 1 ==> i <= t[n + 1]
      invariant forall j :: 0 <= j < |Q| && (j < t[0] || i <= j) ==> b[j] == 0.0
      invariant forall j :: t[0] <= j < i ==> b[j] == InterpolatedAt(Q, t, j)
    {
      var v;
      n, v := SegmentValue(Q, t, n, i);
      b[i] := v;
      i := i + 1;
    }
    PointwiseInterpolated(Q, t, b[..]);
  }

  /** Overwrites b before the first and after the last turning point with the
      corresponding samples of `edge`. */
  method FillEdges(b: array<real>, edge: seq<real>, t: seq<int>)
    requires TurningIndices(t, b.Length) && |t| > 0 && |edge| == b.Length
    modifies b
    ensures forall i :: 0 <= i < t[0] ==> b[i] == edge[i]
    ensures forall i :: t[|t| - 1] < i < b.Length ==> b[i] == edge[i]
    ensures forall i :: t[0] <= i <= t[|t| - 1] ==> b[i] == old(b[i])
  {
    for i := 0 to t[0]
      invariant forall j :: 0 <= j < i ==> b[j] == edge[j]
      invariant forall j :: i <= j < b.Length ==> b[j] == old(b[j])
    {
      b[i] := edge[i];
    }
    for i := t[|t| - 1] + 1 to b.Length
      invariant forall j :: 0 <= j < t[0] ==> b[j] == edge[j]
      invariant forall j :: t[|t| - 1] < j < i ==> b[j] == edge[j]
      invariant forall j :: t[0] <= j <= t[|t| - 1] ==> b[j] == old(b[j])
    {
      b[i] := edge[i];
    }
  }

  /** Runs filter `f` forward over Q: b[0] = Q[0], then each new estimate
      from the previous one and the discharges, clipped to the discharge. */
  method ForwardPass(f: Filter, Q: seq<real>) returns (b: array<real>)
    requires Defined(f) && |Q| >= 1
    ensures fresh(b) && b[..] == Forward(f, Q, |Q|)
  {
    var n := |Q|;
    b := new real[n];
    b[0] := Q[0];
    for i := 0 to n - 1
      invariant b[..i + 1] == Forward(f, Q, i + 1)
    {
      var v := Step(f, b[i], Q[i], Q[i + 1]);
      if v > Q[i + 1] {
        v := Q[i + 1];
      }
      ghost var p := b[..i + 1];
      assert v == Clip(Step(f, p[i], Q[i], Q[i + 1]), Q[i + 1]);
      b[i + 1] := v;
      assert b[..i + 2] == p + [v];
    }
    assert b[..] == b[..n];
  }

  /** The Lyne-Hollick backward pass, in place over the forward result in b,
      reading a copy of it. */
  method BackwardPass(beta: real, b: array<real>)
    requires b.Length >= 1
    modifies b
    ensures forall i :: 0 <= i < b.Length ==> b[i] == BackwardAt(beta, old(b[..]), i)
  {
    var n := b.Length;
    var b1 := b[..];
    var i := n - 2;
    while i >= 0
      invariant -1 <= i <= n - 2
      invariant forall j :: 0 <= j <= i ==> b[j] == b1[j]
      invariant forall j :: i < j < n ==> b[j] == BackwardAt(beta, b1, j)
    {
      var v := Step(LyneHollick(beta), b[i + 1], b1[i + 1], b1[i]);
      if v > b1[i] {
        v := b1[i];
      }
      b[i] := v;
      i := i - 1;
    }
  }

  /** The Lyne-Hollick filter: a forward pass clipped to the discharge, then
      a backward pass over a copy of the forward result, clipped to it. */
  method CalculateLH(Q: seq<real>, beta: real) returns (b: array<real>)
    requires |Q| >= 1
    ensures b.Length == |Q| && b[..] == LyneHollickFilter(beta, Q)
    ensures forall i :: 0 <= i < |Q| ==> b[i] <= Q[i]
  {
    b := ForwardPass(LyneHollick(beta), Q);
    BackwardPass(beta, b);
    LyneHollickBounds(beta, Q);
  }

  /** Index of the first minimum of the five samples from i, by a running
      minimum that only moves on a strictly smaller sample. */
  method BlockArgMin(Q: seq<real>, i: nat) returns (minIdx: nat)
    requires i + 5 <= |Q|
    ensures i <= minIdx < i + 5
    ensures forall j :: i <= j < i + 5 ==> Q[minIdx] <= Q[j]
    ensures forall j :: i <= j < minIdx ==> Q[minIdx] < Q[j]
  {
    minIdx := i;
    var minVal := Q[i];
    for j := i + 1 to i + 5
      invariant i <= minIdx < j && minVal == Q[minIdx]
      invariant forall p :: i <= p < j ==> minVal <= Q[p]
      invariant forall p :: i <= p < minIdx ==> minVal < Q[p]
    {
      if Q[j] < minVal {
        minVal := Q[j];
        minIdx := j;
      }
    }
  }

  /** Indices of the first minimum of each full block of five samples. */
  method UkihBlockMinima(Q: seq<real>) returns (idxMin: seq<int>)
    ensures idxMin == BlockMinima(Q)
  {
    var blockEnd := (|Q| / 5) * 5;
    idxMin := [];
    var i := 0;
    while i < blockEnd
      invariant 0 <= i <= blockEnd && i == 5 * |idxMin|
      invariant forall k :: 0 <= k < |idxMin| ==> idxMin[k] == BlockMinIndex(Q, k)
    {
      var minIdx := BlockArgMin(Q, i);
      var m := BlockMinIndex(Q, |idxMin|);
      assert Q[m] <= Q[minIdx] && Q[minIdx] <= Q[m];
      assert minIdx == m;
      idxMin := idxMin + [minIdx];
      i := i + 5;
    }
    assert |idxMin| == |Q| / 5;
  }

  /** Keeps the middle of every three consecutive block minima that passes the
      0.9 test against both neighbours. */
  method UkihTurningTest(Q: seq<real>, idxMin: seq<int>) returns (idxTurn: seq<int>)
    requires TurningIndices(idxMin, |Q|)
    ensures idxTurn == UkihTurns(Q, idxMin, if |idxMin| >= 2 then |idxMin| - 2 else 0)
  {
    idxTurn := [];
    var k := 0;
    while k < |idxMin| - 2
      invariant 0 <= k && (k == 0 || k + 2 <= |idxMin|)
      invariant idxTurn == UkihTurns(Q, idxMin, k)
    {
      var passes := 0.9 * Q[idxMin[k + 1]] < Q[idxMin[k]] && 0.9 * Q[idxMin[k + 1]] < Q[idxMin[k + 2]];
      assert passes == UkihTest(Q, idxMin, k);
      if passes {
        idxTurn := idxTurn + [idxMin[k + 1]];
      }
      k := k + 1;
    }
  }

  /** The shared tail of the UKIH and local-minimum methods: all zeros with
      fewer than three turning points, otherwise the interpolation between
      them with the Lyne-Hollick result `bLH` outside them. */
  method InterpolateWithEdges(Q: seq<real>, bLH: seq<real>, idxTurn: seq<int>) returns (b: array<real>)
    requires |bLH| == |Q| && TurningIndices(idxTurn, |Q|)
    ensures b.Length == |Q|
    ensures |idxTurn| < 3 ==> forall i :: 0 <= i < |Q| ==> b[i] == 0.0
    ensures |idxTurn| >= 3 ==> EdgeFilled(Q, bLH, idxTurn, b[..])
  {
    if |idxTurn| < 3 {
      b := new real[|Q|](_ => 0.0);
      return;
    }
    b := LinearInterpolation(Q, idxTurn);
    ghost var interpolated := b[..];
    FillEdges(b, bLH, idxTurn);
    InterpolatedOnFrame(Q, idxTurn, interpolated, b[..]);
  }

  /** When the edges come from the Lyne-Hollick result of the same series,
      the UKIH and local-minimum results never exceed the discharge. */
  lemma EdgeFilledBelow(Q: seq<real>, beta: real, t: seq<int>, b: seq<real>)
    requires |Q| >= 1 && TurningIndices(t, |Q|) && |t| > 0 && |b| == |Q|
    requires EdgeFilled(Q, LyneHollickFilter(beta, Q), t, b)
    ensures forall i :: 0 <= i < |Q| ==> b[i] <= Q[i]
  {
    LyneHollickBounds(beta, Q);
    InterpolatedBelow(Q, t, b);
  }

  /** For a non-negative discharge and edges from its Lyne-Hollick result,
      the UKIH and local-minimum results never exceed the discharge, both
      when they are all zeros and when they interpolate between three or
      more turning points. */
  lemma SeparationBelow(Q: seq<real>, beta: real, t: seq<int>, b: seq<real>)
    requires |Q| >= 1 && TurningIndices(t, |Q|) && |b| == |Q|
    requires forall i :: 0 <= i < |Q| ==> Q[i] >= 0.0
    requires |t| < 3 ==> forall i :: 0 <= i < |Q| ==> b[i] == 0.0
    requires |t| >= 3 ==> EdgeFilled(Q, LyneHollickFilter(beta, Q), t, b)
    ensures forall i :: 0 <= i < |Q| ==> b[i] <= Q[i]
  {
    if |t| >= 3 {
      EdgeFilledBelow(Q, beta, t, b);
    }
  }

  /** The UKIH method: minima of blocks of five, the 0.9 turning-point test,
      interpolation between the turning points and the Lyne-Hollick result
      `bLH` outside them; all zeros when fewer than three turning points. */
  method CalculateUKIH(Q: seq<real>, bLH: seq<real>) returns (b: array<real>)
    requires |bLH| == |Q|
    ensures b.Length == |Q|
    ensures var t := UkihTurningPoints(Q);
            TurningIndices(t, |Q|) &&
            (|t| < 3 ==> forall i :: 0 <= i < |Q| ==> b[i] == 0.0) &&
            (|t| >= 3 ==> EdgeFilled(Q, bLH, t, b[..]))
  {
    var idxMin := UkihBlockMinima(Q);
    BlockMinimaIncreasing(Q);
    var idxTurn := UkihTurningTest(Q, idxMin);
    assert idxTurn == UkihTurningPoints(Q);
    UkihTurningPointsSpec(Q);
    b := InterpolateWithEdges(Q, bLH, idxTurn);
  }

  /** Whether Q[i] is the minimum of the window [i - half, i + half], by a
      scan that stops at the first smaller sample. */
  method WindowScan(Q: seq<real>, half: nat, i: int) returns (isMin: bool)
    requires half <= i < |Q| - half
    ensures isMin == IsWindowMin(Q, half, i)
  {
    var start := i - half;
    var end := i + half;
    isMin := true;
    for j := start to end + 1
      invariant isMin && forall p :: start <= p < j ==> Q[i] <= Q[p]
    {
      if Q[j] < Q[i] {
        isMin := false;
        break;
      }
    }
  }

  /** The local-minimum method: samples that are the minimum of the centred
      window of half-width (N' - 1) / 2 are turning points; then as UKIH. */
  method CalculateLocalMin(Q: seq<real>, bLH: seq<real>, hysepN: Option<real>) returns (b: array<real>)
    requires |bLH| == |Q|
    ensures b.Length == |Q|
    ensures var t := LocalMinima(Q, (HysepInterval(hysepN) - 1) / 2);
            TurningIndices(t, |Q|) &&
            (|t| < 3 ==> forall i :: 0 <= i < |Q| ==> b[i] == 0.0) &&
            (|t| >= 3 ==> EdgeFilled(Q, bLH, t, b[..]))
  {
    var inN := HysepInterval(hysepN);
    var half := (inN - 1) / 2;
    var idxTurn: seq<int> := [];
    var i := half;
    while i < |Q| - half
      invariant half <= i && (i <= |Q| - half || i == half)
      invariant idxTurn == WindowMins(Q, half, i)
    {
      var isMin := WindowScan(Q, half, i);
      if isMin {
        idxTurn := idxTurn + [i];
      }
      i := i + 1;
    }
    assert idxTurn == LocalMinima(Q, half);
    LocalMinimaSpec(Q, half);
    b := InterpolateWithEdges(Q, bLH, idxTurn);
  }

  /** Sets b[lo..hi) to v. */
  method Fill(b: array<real>, lo: nat, hi: nat, v: real)
    requires lo <= hi <= b.Length
    modifies b
    ensures forall j :: lo <= j < hi ==> b[j] == v
    ensures forall j :: 0 <= j < b.Length && !(lo <= j < hi) ==> b[j] == old(b[j])
  {
    for j := lo to hi
      invariant forall p :: lo <= p < j ==> b[p] == v
      invariant forall p :: 0 <= p < b.Length && !(lo <= p < j) ==> b[p] == old(b[p])
    {
      b[j] := v;
    }
  }

  /** Sets the k-th block of width w to the minimum discharge over it. */
  method FillBlock(b: array<real>, Q: seq<real>, w: nat, k: nat)
    requires b.Length == |Q| && w > 0 && w * k < |Q|
    modifies b
    ensures forall j :: w * k <= j < BlockEnd(|Q|, w, k) ==> b[j] == FixedValue(Q, w, j)
    ensures forall j :: 0 <= j < b.Length && !(w * k <= j < BlockEnd(|Q|, w, k)) ==> b[j] == old(b[j])
  {
    var start, end := w * k, BlockEnd(|Q|, w, k);
    var minVal := RangeMin(Q, start, end);
    Fill(b, start, end, minVal);
    forall j | start <= j < end
      ensures FixedValue(Q, w, j) == minVal
    {
      BlockOf(w, k, j);
    }
  }

  /** Sets each of the first `count` blocks of width w to its minimum
      discharge. */
  method FillFullBlocks(b: array<real>, Q: seq<real>, w: nat, count: nat)
    requires b.Length == |Q| && w > 0 && w * count <= |Q|
    modifies b
    ensures forall j :: 0 <= j < w * count ==> b[j] == FixedValue(Q, w, j)
    ensures forall j :: w * count <= j < b.Length ==> b[j] == old(b[j])
  {
    for i := 0 to count
      invariant forall j :: 0 <= j < w * i ==> b[j] == FixedValue(Q, w, j)
      invariant forall j :: w * count <= j < b.Length ==> b[j] == old(b[j])
    {
      NextBlock(w, i, count, |Q|);
      FillBlock(b, Q, w, i);
    }
  }

  /** Sets every full block of width w, and then the trailing shorter block
      if any, to its minimum discharge. */
  method FixedBlocks(Q: seq<real>, w: nat) returns (b: array<real>)
    requires w > 0
    ensures b.Length == |Q|
    ensures forall j :: 0 <= j < |Q| ==> b[j] == FixedValue(Q, w, j)
  {
    b := new real[|Q|];
    var n := |Q| / w;
    FullBlocks(|Q|, w);
    FillFullBlocks(b, Q, w, n);
    if n * w != |Q| {
      FillBlock(b, Q, w, n);
    }
  }

  /** The HYSEP fixed-interval method: each full block of N' samples, and
      the trailing shorter block if any, is set to its minimum discharge. */
  method CalculateFixed(Q: seq<real>, hysepN: Option<real>) returns (b: array<real>)
    ensures b.Length == |Q|
    ensures forall j :: 0 <= j < |Q| ==> b[j] == FixedValue(Q, HysepInterval(hysepN), j)
    ensures forall j :: 0 <= j < |Q| ==> b[j] <= Q[j]
  {
    var inN := HysepInterval(hysepN);
    b := FixedBlocks(Q, inN);
  }

  /** Sets every interior sample i, half <= i < |Q| - half, to the minimum
      of the centred window [i - half, i + half]. */
  method SlideInterior(b: array<real>, Q: seq<real>, half: nat)
    requires b.Length == |Q| && 1 <= half <= |Q|
    modifies b
    ensures forall i :: half <= i < |Q| - half ==> b[i] == SlideValue(Q, half, i)
    ensures forall i :: 0 <= i < |Q| && !(half <= i < |Q| - half) ==> b[i] == old(b[i])
  {
    if half < |Q| - half {
      for i := half to |Q| - half
        invariant forall p :: half <= p < i ==> b[p] == SlideValue(Q, half, p)
        invariant forall p :: 0 <= p < |Q| && !(half <= p < i) ==> b[p] == old(b[p])
      {
        SlideAt(b, Q, half, i);
      }
    }
  }

  /** Sets the interior sample i to the minimum of its centred window. */
  method SlideAt(b: array<real>, Q: seq<real>, half: nat, i: nat)
    requires b.Length == |Q| && 1 <= half && half <= i < |Q| - half
    modifies b
    ensures b[i] == SlideValue(Q, half, i)
    ensures forall p :: 0 <= p < b.Length && p != i ==> b[p] == old(b[p])
  {
    var minVal := RangeMin(Q, i - half, i + half + 1);
    b[i] := minVal;
  }

  /** The HYSEP sliding-interval method: the minimum of the centred window
      of N' samples in the interior; the first and the last (N' - 1) / 2
      samples take the minimum of the first and of the last (N' - 1) / 2
      discharges, the latter written last. */
  method CalculateSlide(Q: seq<real>, hysepN: Option<real>) returns (b: array<real>)
    requires (HysepInterval(hysepN) - 1) / 2 <= |Q|
    ensures b.Length == |Q|
    ensures forall i :: 0 <= i < |Q| ==> b[i] == SlideValue(Q, (HysepInterval(hysepN) - 1) / 2, i)
    ensures forall i :: 0 <= i < |Q| ==> b[i] <= Q[i]
  {
    var inN := HysepInterval(hysepN);
    b := new real[|Q|];
    var half := (inN - 1) / 2;
    SlideInterior(b, Q, half);
    var minStart := RangeMin(Q, 0, half);
    Fill(b, 0, half, minStart);
    var minEnd := RangeMin(Q, |Q| - half, |Q|);
    Fill(b, |Q| - half, |Q|, minEnd);
  }

  /** The Chapman (1991) filter. */
  method CalculateChapman(Q: seq<real>, a: real) returns (b: array<real>)
    requires |Q| >= 1 && 3.0 - a != 0.0
    ensures b.Length == |Q| && b[..] == OnePass(Chapman(a), Q)
    ensures b[0] == Q[0] && forall i :: 0 <= i < |Q| ==> b[i] <= Q[i]
  {
    b := ForwardPass(Chapman(a), Q);
  }

  /** The Chapman-Maxwell (1996) filter. */
  method CalculateCM(Q: seq<real>, a: real) returns (b: array<real>)
    requires |Q| >= 1 && 2.0 - a != 0.0
    ensures b.Length == |Q| && b[..] == OnePass(ChapmanMaxwell(a), Q)
    ensures b[0] == Q[0] && forall i :: 0 <= i < |Q| ==> b[i] <= Q[i]
  {
    b := ForwardPass(ChapmanMaxwell(a), Q);
  }

  /** The Boughton (1993) filter with parameter C. */
  method CalculateBoughton(Q: seq<real>, a: real, c: real) returns (b: array<real>)
    requires |Q| >= 1 && 1.0 + c != 0.0
    ensures b.Length == |Q| && b[..] == OnePass(Boughton(a, c), Q)
    ensures b[0] == Q[0] && forall i :: 0 <= i < |Q| ==> b[i] <= Q[i]
  {
    b := ForwardPass(Boughton(a, c), Q);
  }

  /** The Furey-Gupta (2001) filter with parameter A; its recurrence reads
      the discharge Q[i] of the previous step but clips against Q[i+1]. */
  method CalculateFurey(Q: seq<real>, a: real, gamma: real) returns (b: array<real>)
    requires |Q| >= 1
    ensures b.Length == |Q| && b[..] == OnePass(Furey(a, gamma), Q)
    ensures b[0] == Q[0] && forall i :: 0 <= i < |Q| ==> b[i] <= Q[i]
  {
    b := ForwardPass(Furey(a, gamma), Q);
  }

  /** The Eckhardt (2005) filter with maximum baseflow index BFImax. */
  method CalculateEckhardt(Q: seq<real>, a: real, bfiMax: real) returns (b: array<real>)
    requires |Q| >= 1 && EckhardtDenominator(a, bfiMax) != 0.0
    ensures b.Length == |Q| && b[..] == OnePass(Eckhardt(a, bfiMax), Q)
    ensures b[0] == Q[0] && forall i :: 0 <= i < |Q| ==> b[i] <= Q[i]
  {
    b := ForwardPass(Eckhardt(a, bfiMax), Q);
  }

  /** The exponentially weighted moving average filter with smoothing e. */
  method CalculateEWMA(Q: seq<real>, e: real) returns (b: array<real>)
    requires |Q| >= 1
    ensures b.Length == |Q| && b[..] == OnePass(Ewma(e), Q)
    ensures b[0] == Q[0] && forall i :: 0 <= i < |Q| ==> b[i] <= Q[i]
  {
    b := ForwardPass(Ewma(e), Q);
  }

  /** The Willems (2009) filter with weight w. */
  method CalculateWillems(Q: seq<real>, a: real, w: real) returns (b: array<real>)
    requires |Q| >= 1 && w != 0.0 && 1.0 + WillemsV(a, w) != 0.0
    ensures b.Length == |Q| && b[..] == OnePass(Willems(a, w), Q)
    ensures b[0] == Q[0] && forall i :: 0 <= i < |Q| ==> b[i] <= Q[i]
  {
    b := ForwardPass(Willems(a, w), Q);
  }
}
