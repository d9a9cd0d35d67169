/** Running aggregates over millisecond samples, as the renderers keep them:
    sums folded left to right, and a minimum/maximum seeded with the
    infinities `Infinity` and `-Infinity`. */
module Stats {

  /** `s.reduce((sum, t) => sum + t, 0)`. */
  function Sum(s: seq<real>): real
  {
    if s == [] then 0.0 else Sum(s[..|s| - 1]) + s[|s| - 1]
  }

  /** `s.reduce(...) / s.length` for a non-empty list. */
  function Mean(s: seq<real>): real
    requires s != []
  {
    Sum(s) / (|s| as real)
  }

  lemma {:induction false} SumSnoc(s: seq<real>, x: real)
    ensures Sum(s + [x]) == Sum(s) + x
  {
    assert (s + [x])[..|s|] == s;
  }

  /** A real number extended with the two infinities JavaScript seeds
      `minDelay` and `maxDelay` with. */
  datatype Extended = NegInfinity | Finite(value: real) | PosInfinity

  /** `x < e` for a finite `x`. */
  predicate Below(x: real, e: Extended)
  {
    match e
    case NegInfinity => false
    case Finite(v) => x < v
    case PosInfinity => true
  }

  /** `x > e` for a finite `x`. */
  predicate Above(x: real, e: Extended)
  {
    match e
    case NegInfinity => true
    case Finite(v) => x > v
    case PosInfinity => false
  }

  /** The smallest sample, folded left to right. */
  function Min(s: seq<real>): real
    requires s != []
  {
    if |s| == 1 then s[0]
    else
      var m := Min(s[..|s| - 1]);
      if s[|s| - 1] < m then s[|s| - 1] else m
  }

  /** The largest sample, folded left to right. */
  function Max(s: seq<real>): real
    requires s != []
  {
    if |s| == 1 then s[0]
    else
      var m := Max(s[..|s| - 1]);
      if s[|s| - 1] > m then s[|s| - 1] else m
  }

  /** The running minimum of a list of samples: `Infinity` while it is empty. */
  function RunningMin(s: seq<real>): Extended
  {
    if s == [] then PosInfinity else Finite(Min(s))
  }

  /** The running maximum of a list of samples: `-Infinity` while it is empty. */
  function RunningMax(s: seq<real>): Extended
  {
    if s == [] then NegInfinity else Finite(Max(s))
  }

  /** The update `if (x < min) min = x` keeps `RunningMin` current. */
  lemma {:induction false} RunningMinSnoc(s: seq<real>, x: real)
    ensures RunningMin(s + [x]) == if Below(x, RunningMin(s)) then Finite(x) else RunningMin(s)
  {
    assert (s + [x])[..|s|] == s;
  }

  /** The update `if (x > max) max = x` keeps `RunningMax` current. */
  lemma {:induction false} RunningMaxSnoc(s: seq<real>, x: real)
    ensures RunningMax(s + [x]) == if Above(x, RunningMax(s)) then Finite(x) else RunningMax(s)
  {
    assert (s + [x])[..|s|] == s;
  }

  /** Every sample lies between the minimum and the maximum, and both are
      attained by some sample. */
  lemma {:induction false} MinMaxBound(s: seq<real>)
    requires s != []
    ensures forall k :: 0 <= k < |s| ==> Min(s) <= s[k] <= Max(s)
    ensures exists i :: 0 <= i < |s| && s[i] == Min(s)
    ensures exists j :: 0 <= j < |s| && s[j] == Max(s)
    decreases |s|
  {
    if |s| > 1 {
      var init := s[..|s| - 1];
      MinMaxBound(init);
      assert forall k :: 0 <= k < |init| ==> s[k] == init[k];
      var i :| 0 <= i < |init| && init[i] == Min(init);
      var j :| 0 <= j < |init| && init[j] == Max(init);
      if s[|s| - 1] < Min(init) {
        assert s[|s| - 1] == Min(s);
      } else {
        assert s[i] == Min(s);
      }
      if s[|s| - 1] > Max(init) {
        assert s[|s| - 1] == Max(s);
      } else {
        assert s[j] == Max(s);
      }
    } else {
      assert s[0] == Min(s) && s[0] == Max(s);
    }
  }
}
