// Elementary facts about discharge and baseflow series shared by every
// separation method: the clip against discharge, minima over ranges, and
// the shape of turning-point index lists.

module Series {

  /** The clip every method applies after an assignment: an estimate above
      `cap` is replaced by `cap`. */
  function Clip(x: real, cap: real): (r: real)
    ensures r <= cap && r <= x
    ensures r == x || r == cap
  {
    if x > cap then cap else x
  }

  /** A series of `n` samples all equal to `c`. */
  function Constant(c: real, n: nat): (s: seq<real>)
    ensures |s| == n
    ensures forall i :: 0 <= i < n ==> s[i] == c
  {
    seq(n, _ => c)
  }

  /** Index of the first smallest sample of `s`, as found by a left-to-right
      scan that only moves on a strictly smaller sample. */
  function FirstArgMin(s: seq<real>): (k: nat)
    requires |s| > 0
    ensures k < |s|
    ensures forall j :: 0 <= j < |s| ==> s[k] <= s[j]
    ensures forall j :: 0 <= j < k ==> s[k] < s[j]
  {
    if |s| == 1 then 0
    else
      var k := FirstArgMin(s[..|s| - 1]);
      if s[|s| - 1] < s[k] then |s| - 1 else k
  }

  /** The smallest sample of a non-empty series. */
  function SeqMin(s: seq<real>): (m: real)
    requires |s| > 0
    ensures m in s
    ensures forall j :: 0 <= j < |s| ==> m <= s[j]
  {
    s[FirstArgMin(s)]
  }

  /** A sample that no other sample lies below is the minimum. */
  lemma SeqMinAt(s: seq<real>, k: nat)
    requires k < |s| && forall j :: 0 <= j < |s| ==> s[k] <= s[j]
    ensures SeqMin(s) == s[k]
  {
    var i := FirstArgMin(s);
    assert s[i] <= s[k] && s[k] <= s[i];
  }

  predicate StrictlyIncreasing(t: seq<int>) {
    forall p, q :: 0 <= p < q < |t| ==> t[p] < t[q]
  }

  /** A list of turning points: strictly increasing indices into a series of
      length `n`. */
  predicate TurningIndices(t: seq<int>, n: int) {
    StrictlyIncreasing(t) && forall k :: 0 <= k < |t| ==> 0 <= t[k] < n
  }
}
