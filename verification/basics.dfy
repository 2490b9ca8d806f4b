/** Small shared vocabulary: an optional value (Java's nullable references),
    Java's Math.max / Math.min on doubles (modelled as reals), the clamp
    idiom `max(lo, min(hi, x))` that the simulation uses for temperatures,
    hydrogel levels, probabilities and thresholds, and integer sums. */
module Basics {

  /** A possibly-absent value; `None` stands for a Java `null` argument. */
  datatype Option<T> = None | Some(value: T)

  function Max(a: real, b: real): (r: real)
    ensures r == a || r == b
    ensures a <= r && b <= r
  {
    if a >= b then a else b
  }

  function Min(a: real, b: real): (r: real)
    ensures r == a || r == b
    ensures r <= a && r <= b
  {
    if a <= b then a else b
  }

  function MaxInt(a: int, b: int): (r: int)
    ensures r == a || r == b
    ensures a <= r && b <= r
  {
    if a >= b then a else b
  }

  function Abs(x: real): (r: real)
    ensures 0.0 <= r
    ensures r == x || r == -x
  {
    if x < 0.0 then -x else x
  }

  /** `Math.max(lo, Math.min(hi, x))`: saturates `x` into `[lo, hi]`. */
  function Clamp(x: real, lo: real, hi: real): (r: real)
    ensures lo <= hi ==> lo <= r <= hi
    ensures lo <= x <= hi ==> r == x
    ensures lo <= hi && x < lo ==> r == lo
    ensures lo <= hi && hi < x ==> r == hi
    ensures hi < lo ==> r == lo
  {
    Max(lo, Min(hi, x))
  }

  lemma ClampIdempotent(x: real, lo: real, hi: real)
    ensures Clamp(Clamp(x, lo, hi), lo, hi) == Clamp(x, lo, hi)
  {
  }

  lemma ClampMonotone(x: real, y: real, lo: real, hi: real)
    requires x <= y
    ensures Clamp(x, lo, hi) <= Clamp(y, lo, hi)
  {
  }

  /** Sum of a sequence of integers, folded from the left as Java's
      `IntStream.sum` and the explicit `+=` loops do. */
  function Sum(xs: seq<int>): int
  {
    if |xs| == 0 then 0 else Sum(xs[..|xs| - 1]) + xs[|xs| - 1]
  }

  lemma {:induction false} SumAppend(xs: seq<int>, ys: seq<int>)
    ensures Sum(xs + ys) == Sum(xs) + Sum(ys)
    decreases |ys|
  {
    if |ys| == 0 {
      assert xs + ys == xs;
    } else {
      var ys' := ys[..|ys| - 1];
      assert (xs + ys)[..|xs + ys| - 1] == xs + ys';
      SumAppend(xs, ys');
    }
  }

  /** Replacing one entry changes the sum by exactly the difference. */
  lemma {:induction false} SumUpdate(xs: seq<int>, k: int, v: int)
    requires 0 <= k < |xs|
    ensures Sum(xs[k := v]) == Sum(xs) - xs[k] + v
    decreases |xs|
  {
    var n := |xs|;
    if k == n - 1 {
      assert xs[k := v][..n - 1] == xs[..n - 1];
    } else {
      assert xs[k := v][..n - 1] == xs[..n - 1][k := v];
      SumUpdate(xs[..n - 1], k, v);
    }
  }

  /** Sum of a sequence of reals. */
  function SumReals(xs: seq<real>): real
  {
    if |xs| == 0 then 0.0 else SumReals(xs[..|xs| - 1]) + xs[|xs| - 1]
  }
}
