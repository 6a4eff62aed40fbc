// Reference definitions for the HYSEP fixed-interval method, where the series
// is cut into consecutive blocks of width w (the last one possibly shorter),
// and the sliding-interval method, a centred window minimum with clamped
// edges.

module Intervals {
  import opened Series

  /** End (exclusive) of the k-th block of width w in a series of length n. */
  function BlockEnd(n: nat, w: nat, k: nat): nat {
    if w * k + w <= n then w * k + w else n
  }

  /** Minimum discharge over the k-th block of width w: no sample of the
      block lies below it and some sample of the block equals it. */
  function BlockMin(Q: seq<real>, w: nat, k: nat): (m: real)
    requires w > 0 && w * k < |Q|
    ensures forall p :: w * k <= p < BlockEnd(|Q|, w, k) ==> m <= Q[p]
    ensures exists p :: w * k <= p < BlockEnd(|Q|, w, k) && m == Q[p]
  {
    var lo, hi := w * k, BlockEnd(|Q|, w, k);
    var s := Q[lo..hi];
    assert forall p :: lo <= p < hi ==> Q[p] == s[p - lo];
    var j := FirstArgMin(s);
    assert Q[lo + j] == SeqMin(s);
    SeqMin(s)
  }

  lemma MulMonotone(w: int, x: int, y: int)
    requires w >= 0 && x <= y
    ensures w * x <= w * y
  {
    assert w * y - w * x == w * (y - x);
  }

  /** The full blocks of width w cover a prefix of a series of length n that
      leaves less than one block over. */
  lemma FullBlocks(n: nat, w: nat)
    requires w > 0
    ensures w * (n / w) <= n < w * (n / w) + w
  {
    assert n == w * (n / w) + n % w;
  }

  /** Block i + 1 starts where block i ends, and block i ends within the
      full blocks. */
  lemma NextBlock(w: nat, i: nat, count: nat, n: nat)
    requires i < count && w * count <= n
    ensures w * (i + 1) == w * i + w <= w * count <= n
  {
    MulMonotone(w, i + 1, count);
  }

  /** Index j lies in block k exactly when j / w == k. */
  lemma BlockOf(w: int, k: int, j: int)
    requires w > 0 && 0 <= k
    ensures w * k <= j < w * k + w <==> j / w == k
  {
    var q, r := j / w, j % w;
    assert j == w * q + r && 0 <= r < w;
    if w * k <= j < w * k + w {
      if q < k {
        assert w * (q + 1) == w * q + w;
        MulMonotone(w, q + 1, k);
      } else if q > k {
        assert w * (k + 1) == w * k + w;
        MulMonotone(w, k + 1, q);
      }
    }
  }

  /** The block of index j starts at or before j and ends after it. */
  lemma BlockContains(n: nat, w: nat, j: nat)
    requires w > 0 && j < n
    ensures w * (j / w) <= j < BlockEnd(n, w, j / w)
  {
    assert j == w * (j / w) + j % w;
  }

  /** The fixed-interval baseflow at sample j: the minimum of its block. */
  function FixedValue(Q: seq<real>, w: nat, j: nat): (r: real)
    requires w > 0 && j < |Q|
    ensures r <= Q[j]
  {
    BlockContains(|Q|, w, j);
    BlockMin(Q, w, j / w)
  }

  /** The fixed-interval baseflow is a step function: samples in the same
      block get the same value, and every sample's value is the minimum
      over its block. */
  lemma FixedStep(Q: seq<real>, w: nat, j: nat)
    requires w > 0 && j < |Q|
    ensures forall p :: w * (j / w) <= p < BlockEnd(|Q|, w, j / w) ==>
              p < |Q| && FixedValue(Q, w, p) == FixedValue(Q, w, j) <= Q[p]
  {
    BlockContains(|Q|, w, j);
    var k := j / w;
    forall p | w * k <= p < BlockEnd(|Q|, w, k)
      ensures p < |Q| && p / w == k
    {
      BlockOf(w, k, p);
    }
  }

  /** The sliding-interval baseflow at sample i with window half-width
      `half`: the minimum of the last `half` samples for the last `half`
      indices, of the first `half` samples for the first `half` indices,
      and of the centred window [i - half, i + half] elsewhere. */
  function SlideValue(Q: seq<real>, half: nat, i: nat): (r: real)
    requires 1 <= half <= |Q| && i < |Q|
    ensures r <= Q[i]
  {
    if i >= |Q| - half then
      var s := Q[|Q| - half..|Q|];
      assert Q[i] == s[i - (|Q| - half)];
      SeqMin(s)
    else if i < half then
      var s := Q[0..half];
      assert Q[i] == s[i];
      SeqMin(s)
    else
      var s := Q[i - half..i + half + 1];
      assert Q[i] == s[half];
      SeqMin(s)
  }

  /** In the interior, the sliding-interval baseflow lies below every sample
      of the centred window and equals one of them. */
  lemma SlideWindowMin(Q: seq<real>, half: nat, i: nat)
    requires 1 <= half && half <= i < |Q| - half
    ensures forall p :: i - half <= p <= i + half ==> SlideValue(Q, half, i) <= Q[p]
    ensures exists p :: i - half <= p <= i + half && SlideValue(Q, half, i) == Q[p]
  {
    var s := Q[i - half..i + half + 1];
    assert forall p :: i - half <= p <= i + half ==> Q[p] == s[p - (i - half)];
    var j := FirstArgMin(s);
    assert Q[i - half + j] == SeqMin(s);
  }
}
