// Reference definitions of the turning points used by the UKIH method
// (minima of blocks of five that pass a 0.9 test against their neighbours)
// and by the local-minimum method (samples that are the minimum of the
// centred window around them).

module TurningPoints {
  import opened Series

  /** Index of the first minimum of the k-th full block of five samples. */
  function BlockMinIndex(Q: seq<real>, k: nat): (m: nat)
    requires 5 * k + 5 <= |Q|
    ensures 5 * k <= m < 5 * k + 5
    ensures forall j :: 5 * k <= j < 5 * k + 5 ==> Q[m] <= Q[j]
    ensures forall j :: 5 * k <= j < m ==> Q[m] < Q[j]
  {
    var block := Q[5 * k .. 5 * k + 5];
    assert forall j :: 5 * k <= j < 5 * k + 5 ==> Q[j] == block[j - 5 * k];
    5 * k + FirstArgMin(block)
  }

  /** The minima of all full blocks of five; a trailing partial block has none. */
  function BlockMinima(Q: seq<real>): seq<int> {
    seq(|Q| / 5, k requires 0 <= k < |Q| / 5 => BlockMinIndex(Q, k))
  }

  /** The block minima are strictly increasing indices into Q. */
  lemma BlockMinimaIncreasing(Q: seq<real>)
    ensures |BlockMinima(Q)| == |Q| / 5
    ensures TurningIndices(BlockMinima(Q), |Q|)
  {
    var m := BlockMinima(Q);
    forall p, q | 0 <= p < q < |m|
      ensures m[p] < m[q]
    {
      assert m[p] < 5 * p + 5 <= 5 * q <= m[q];
    }
  }

  /** The UKIH test for the middle of three consecutive block minima:
      0.9 times its discharge lies below the discharge of both neighbours. */
  predicate UkihTest(Q: seq<real>, m: seq<int>, k: nat)
    requires k + 2 < |m| && forall j :: 0 <= j < |m| ==> 0 <= m[j] < |Q|
  {
    0.9 * Q[m[k + 1]] < Q[m[k]] && 0.9 * Q[m[k + 1]] < Q[m[k + 2]]
  }

  /** The turning points found by the first k tests over the block minima m. */
  function UkihTurns(Q: seq<real>, m: seq<int>, k: nat): seq<int>
    requires (k == 0 || k + 2 <= |m|) && forall j :: 0 <= j < |m| ==> 0 <= m[j] < |Q|
  {
    if k == 0 then []
    else UkihTurns(Q, m, k - 1) + (if UkihTest(Q, m, k - 1) then [m[k]] else [])
  }

  /** The UKIH turning points of the whole series. */
  function UkihTurningPoints(Q: seq<real>): seq<int> {
    var m := BlockMinima(Q);
    BlockMinimaIncreasing(Q);
    UkihTurns(Q, m, if |m| >= 2 then |m| - 2 else 0)
  }

  /** The turning points of the first k tests are strictly increasing
      indices into Q that lie strictly after the first block minimum and no
      later than the k-th. */
  lemma {:induction false} UkihTurnsOrdered(Q: seq<real>, m: seq<int>, k: nat)
    requires TurningIndices(m, |Q|) && k + 2 <= |m|
    ensures var T := UkihTurns(Q, m, k);
            TurningIndices(T, |Q|) && forall p :: 0 <= p < |T| ==> m[0] < T[p] <= m[k]
  {
    if k > 0 {
      UkihTurnsOrdered(Q, m, k - 1);
      var prev := UkihTurns(Q, m, k - 1);
      assert m[k - 1] < m[k];
      assert forall p :: 0 <= p < |prev| ==> prev[p] < m[k];
    }
  }

  /** A value is among the turning points of the first k tests exactly when
      it is the middle of a triple of block minima that passed its test. */
  lemma {:induction false} UkihTurnsMembers(Q: seq<real>, m: seq<int>, k: nat)
    requires k + 2 <= |m| && forall j :: 0 <= j < |m| ==> 0 <= m[j] < |Q|
    ensures forall x :: x in UkihTurns(Q, m, k) <==>
              exists j :: 0 <= j < k && x == m[j + 1] && UkihTest(Q, m, j)
  {
    if k > 0 {
      UkihTurnsMembers(Q, m, k - 1);
      var prev := UkihTurns(Q, m, k - 1);
      var step := if UkihTest(Q, m, k - 1) then [m[k]] else [];
      assert UkihTurns(Q, m, k) == prev + step;
      forall x
        ensures x in prev + step <==> exists j :: 0 <= j < k && x == m[j + 1] && UkihTest(Q, m, j)
      {
        if x in step {
          assert x == m[(k - 1) + 1] && UkihTest(Q, m, k - 1);
        }
      }
    }
  }

  /** All tests over the list m: the turning points lie strictly between the
      first and the last entry of m. */
  lemma UkihTurnsAll(Q: seq<real>, m: seq<int>)
    requires TurningIndices(m, |Q|)
    ensures var T := UkihTurns(Q, m, if |m| >= 2 then |m| - 2 else 0);
            TurningIndices(T, |Q|) &&
            (forall p :: 0 <= p < |T| ==> m[0] < T[p] < m[|m| - 1]) &&
            (forall x :: x in T <==> exists j :: 0 <= j < |m| - 2 && x == m[j + 1] && UkihTest(Q, m, j))
  {
    if |m| >= 2 {
      UkihTurnsOrdered(Q, m, |m| - 2);
      UkihTurnsMembers(Q, m, |m| - 2);
      assert m[|m| - 2] < m[|m| - 1];
    }
  }

  /** UKIH turning points are strictly increasing indices into Q, are never
      the minimum of the first or of the last full block, and are exactly the
      block minima that pass the 0.9 test against both neighbours. */
  lemma UkihTurningPointsSpec(Q: seq<real>)
    ensures var T := UkihTurningPoints(Q);
            var m := BlockMinima(Q);
            TurningIndices(T, |Q|) &&
            (forall p :: 0 <= p < |T| ==> 0 < |m| && m[0] < T[p] < m[|m| - 1]) &&
            (forall x :: x in T <==> exists j :: 0 <= j < |m| - 2 && x == m[j + 1] && UkihTest(Q, m, j))
  {
    BlockMinimaIncreasing(Q);
    UkihTurnsAll(Q, BlockMinima(Q));
  }

  /** Sample i is the minimum of the centred window of half-width `half`
      around it; ties count as minima. */
  predicate IsWindowMin(Q: seq<real>, half: nat, i: int) {
    half <= i < |Q| - half && forall j :: i - half <= j <= i + half ==> Q[i] <= Q[j]
  }

  /** The window minima among the indices half..hi-1, in increasing order. */
  function WindowMins(Q: seq<real>, half: nat, hi: nat): seq<int>
    requires half <= hi
    decreases hi
  {
    if hi == half then []
    else WindowMins(Q, half, hi - 1) + (if IsWindowMin(Q, half, hi - 1) then [hi - 1] else [])
  }

  /** The local-minimum turning points of the whole series. */
  function LocalMinima(Q: seq<real>, half: nat): seq<int> {
    WindowMins(Q, half, if |Q| - half > half then |Q| - half else half)
  }

  lemma {:induction false} WindowMinsSpec(Q: seq<real>, half: nat, hi: nat)
    requires half <= hi
    ensures var W := WindowMins(Q, half, hi);
            StrictlyIncreasing(W) &&
            (forall p :: 0 <= p < |W| ==> half <= W[p] < hi) &&
            (forall x :: x in W <==> half <= x < hi && IsWindowMin(Q, half, x))
    decreases hi
  {
    if hi > half {
      WindowMinsSpec(Q, half, hi - 1);
    }
  }

  /** The local-minimum turning points are strictly increasing indices into Q,
      and i is one of them exactly when it is the minimum of its window. */
  lemma LocalMinimaSpec(Q: seq<real>, half: nat)
    ensures TurningIndices(LocalMinima(Q, half), |Q|)
    ensures forall x :: x in LocalMinima(Q, half) <==> IsWindowMin(Q, half, x)
  {
    var hi := if |Q| - half > half then |Q| - half else half;
    WindowMinsSpec(Q, half, hi);
  }
}
