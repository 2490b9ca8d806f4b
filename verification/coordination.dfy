/** The sprint coordinator (coordinator/SprintCoordinator.java): every
    `interval` epochs it re-solves the sprinting game for the utilities the
    runners currently report and broadcasts the resulting threshold.

    The Bellman solver, the Gaussian density it is handed and the standard
    deviation estimate are floating-point numerics; the solver is a function
    parameter, and the estimate enters as the value before its floor. Each
    runner's current utility is supplied positionally. */
module Coordination {
  import opened Basics
  import Runners
  import Bellman

  /** Threshold before the first recompute. */
  const InitialThreshold: real := 0.75
  /** Band the broadcast threshold is clamped to. */
  const LowThreshold: real := 0.4
  const HighThreshold: real := 0.6
  /** Floor of the standard deviation handed to the solver. */
  const MinStd: real := 0.01

  datatype Coordinator = Coordinator(
    interval: int,
    sinceRecompute: int,
    threshold: real,
    params: Bellman.Params)

  /** An abstract `solve`: parameters, mean and standard deviation of the
      fitted density, to the raw threshold `u_T*`. */
  type Solver = (Bellman.Params, real, real) -> real

  function New(interval: int): (c: Coordinator)
    ensures c.interval == interval
    ensures c.sinceRecompute == 0 && c.threshold == InitialThreshold
    ensures c.params == Bellman.Defaults
    ensures interval >= 1 ==> Valid(c)
  {
    Coordinator(interval, 0, InitialThreshold, Bellman.Defaults)
  }

  /** The counter stays below the interval, and the current threshold is the
      initial one or lies in the clamp band. */
  predicate Valid(c: Coordinator)
  {
    && c.interval >= 1
    && 0 <= c.sinceRecompute < c.interval
    && (c.threshold == InitialThreshold || LowThreshold <= c.threshold <= HighThreshold)
  }

  /** The utilities strictly above 0, in their original order. */
  function Positives(us: seq<real>): (ps: seq<real>)
    ensures |ps| <= |us|
    ensures forall j :: 0 <= j < |ps| ==> ps[j] > 0.0
    ensures forall x :: x in ps <==> x in us && x > 0.0
    ensures |ps| == 0 <==> forall i :: 0 <= i < |us| ==> us[i] <= 0.0
    ensures forall x :: x > 0.0 ==> multiset(ps)[x] == multiset(us)[x]
    ensures forall x :: x <= 0.0 ==> multiset(ps)[x] == 0
  {
    if |us| == 0 then []
    else
      var rest := Positives(us[1..]);
      assert us == [us[0]] + us[1..];
      KeepPositiveHead(us[0], us[1..], rest);
      if us[0] > 0.0 then [us[0]] + rest else rest
  }

  /** One filtering step keeps the multiplicity of every positive reading
      and drops every other one. */
  lemma KeepPositiveHead(u: real, tail: seq<real>, rest: seq<real>)
    requires forall x :: x > 0.0 ==> multiset(rest)[x] == multiset(tail)[x]
    requires forall x :: x <= 0.0 ==> multiset(rest)[x] == 0
    ensures var ps := if u > 0.0 then [u] + rest else rest;
            && (forall x :: x > 0.0 ==> multiset(ps)[x] == multiset([u] + tail)[x])
            && (forall x :: x <= 0.0 ==> multiset(ps)[x] == 0)
  {
    assert multiset([u] + tail) == multiset{u} + multiset(tail);
    assert multiset([u] + rest) == multiset{u} + multiset(rest);
  }

  /** The filter keeps order: filtering a concatenation concatenates the
      filtered parts. */
  lemma {:induction false} PositivesAppend(a: seq<real>, b: seq<real>)
    ensures Positives(a + b) == Positives(a) + Positives(b)
    decreases |a|
  {
    if |a| > 0 {
      assert (a + b)[1..] == a[1..] + b;
      PositivesAppend(a[1..], b);
    } else {
      assert a + b == b;
    }
  }

  /** Filtering positives is idempotent and keeps an all-positive list. */
  lemma {:induction false} PositivesKeepsPositive(us: seq<real>)
    requires forall i :: 0 <= i < |us| ==> us[i] > 0.0
    ensures Positives(us) == us
  {
    if |us| > 0 {
      PositivesKeepsPositive(us[1..]);
      assert [us[0]] + us[1..] == us;
    }
  }

  /** Arithmetic mean of the filtered utilities. */
  function Mean(ps: seq<real>): (m: real)
    requires |ps| > 0
  {
    SumReals(ps) / (|ps| as real)
  }

  lemma {:induction false} SumOfPositives(ps: seq<real>)
    requires forall j :: 0 <= j < |ps| ==> ps[j] > 0.0
    ensures |ps| > 0 ==> SumReals(ps) > 0.0
    ensures SumReals(ps) >= 0.0
  {
    if |ps| > 0 {
      SumOfPositives(ps[..|ps| - 1]);
    }
  }

  /** The mean of a non-empty list of positive utilities is positive. */
  lemma MeanPositive(ps: seq<real>)
    requires |ps| > 0
    requires forall j :: 0 <= j < |ps| ==> ps[j] > 0.0
    ensures Mean(ps) > 0.0
  {
    SumOfPositives(ps);
  }

  /** `Math.max(std, 0.01)`. */
  function FlooredStd(rawStd: real): (s: real)
    ensures s >= MinStd
    ensures s == rawStd || s == MinStd
    ensures rawStd >= MinStd ==> s == rawStd
  {
    Max(rawStd, MinStd)
  }

  /** The knees are reset before the early return. */
  function RackParams(p: Bellman.Params): (q: Bellman.Params)
    ensures q.n == 10 && q.nMin == 2 && q.nMax == 6
    ensures q == p.(n := q.n, nMin := q.nMin, nMax := q.nMax)
  {
    p.(n := 10, nMin := 2, nMax := 6)
  }

  /** The domain is reset only after the early return. */
  function DomainParams(p: Bellman.Params): (q: Bellman.Params)
    ensures q.uMin == 0.0 && q.uMax == 1.0
    ensures q == p.(uMin := q.uMin, uMax := q.uMax)
  {
    p.(uMin := 0.0, uMax := 1.0)
  }

  /** `rawThreshold / uMax` clamped to [0.4, 0.6]. */
  function FinalThreshold(raw: real, uMax: real): (t: real)
    requires uMax != 0.0
    ensures LowThreshold <= t <= HighThreshold
    ensures LowThreshold <= raw / uMax <= HighThreshold ==> t == raw / uMax
    ensures raw / uMax < LowThreshold ==> t == LowThreshold
    ensures HighThreshold < raw / uMax ==> t == HighThreshold
  {
    Clamp(raw / uMax, LowThreshold, HighThreshold)
  }

  /** `setSprintThreshold` on every runner. */
  function Broadcast(rs: seq<Runners.Runner>, t: real): (rs': seq<Runners.Runner>)
    ensures |rs'| == |rs|
    ensures forall i :: 0 <= i < |rs| ==> rs'[i] == rs[i].(threshold := t)
  {
    seq(|rs|, i requires 0 <= i < |rs| => Runners.SetThreshold(rs[i], t))
  }

  /** Broadcasting twice is broadcasting the second value; the first is
      forgotten. */
  lemma BroadcastOverrides(rs: seq<Runners.Runner>, t1: real, t2: real)
    ensures Broadcast(Broadcast(rs, t1), t2) == Broadcast(rs, t2)
    ensures forall i :: 0 <= i < |rs| ==> Broadcast(rs, t1)[i].threshold == t1
  {
  }

  /** `recomputeThresholds`: `utilities[i]` is runner i's current utility. */
  function Recompute(c: Coordinator, rs: seq<Runners.Runner>, utilities: seq<real>,
                     rawStd: real, solve: Solver): (res: (Coordinator, seq<Runners.Runner>))
    requires |utilities| == |rs|
    ensures res.0.interval == c.interval && res.0.sinceRecompute == c.sinceRecompute
    ensures res.0.params.n == 10 && res.0.params.nMin == 2 && res.0.params.nMax == 6
    ensures |res.1| == |rs|
    ensures |Positives(utilities)| == 0 ==>
              && res.0 == c.(params := RackParams(c.params))
              && res.1 == rs
    ensures |Positives(utilities)| > 0 ==>
              var t := res.0.threshold;
              && LowThreshold <= t <= HighThreshold
              && res.0.params == DomainParams(RackParams(c.params))
              && t == FinalThreshold(solve(res.0.params, Mean(Positives(utilities)), FlooredStd(rawStd)), 1.0)
              && (forall i :: 0 <= i < |rs| ==> res.1[i] == rs[i].(threshold := t))
  {
    var rack := RackParams(c.params);
    var ps := Positives(utilities);
    if |ps| == 0 then (c.(params := rack), rs)
    else
      var p := DomainParams(rack);
      var raw := solve(p, Mean(ps), FlooredStd(rawStd));
      var t := FinalThreshold(raw, p.uMax);
      (c.(params := p, threshold := t), Broadcast(rs, t))
  }

  /** Counter after one `onEpoch`. */
  function NextCount(interval: int, since: int): (k: int)
    ensures since + 1 >= interval ==> k == 0
    ensures since + 1 < interval ==> k == since + 1
  {
    if since + 1 >= interval then 0 else since + 1
  }

  /** `onEpoch`: count, and recompute and reset once the interval is reached. */
  function OnEpoch(c: Coordinator, rs: seq<Runners.Runner>, utilities: seq<real>,
                   rawStd: real, solve: Solver): (res: (Coordinator, seq<Runners.Runner>))
    requires |utilities| == |rs|
    ensures res.0.sinceRecompute == NextCount(c.interval, c.sinceRecompute)
    ensures res.0.interval == c.interval
    ensures |res.1| == |rs|
    ensures c.sinceRecompute + 1 < c.interval ==>
              res == (c.(sinceRecompute := c.sinceRecompute + 1), rs)
    ensures c.sinceRecompute + 1 >= c.interval ==>
              var rec := Recompute(c, rs, utilities, rawStd, solve);
              res == (rec.0.(sinceRecompute := 0), rec.1)
    ensures Valid(c) ==> Valid(res.0)
  {
    var k := c.sinceRecompute + 1;
    if k >= c.interval then
      var rec := Recompute(c, rs, utilities, rawStd, solve);
      (rec.0.(sinceRecompute := 0), rec.1)
    else
      (c.(sinceRecompute := k), rs)
  }

  /** `getEpochsUntilRecompute`. */
  function EpochsUntilRecompute(c: Coordinator): int
  {
    c.interval - c.sinceRecompute
  }

  /** `getCurrentThreshold`. */
  function CurrentThreshold(c: Coordinator): real
  {
    c.threshold
  }

  /** Between epochs the countdown lies in [1, interval], and the current
      threshold is 0.75 or within the clamp band. */
  lemma ValidReadings(c: Coordinator)
    requires Valid(c)
    ensures 1 <= EpochsUntilRecompute(c) <= c.interval
    ensures CurrentThreshold(c) == InitialThreshold
            || LowThreshold <= CurrentThreshold(c) <= HighThreshold
  {
  }

  /** A multiple of `m >= 1` by a positive factor is at least `m`. */
  lemma MultipleAtLeast(e: int, m: int)
    requires e >= 1 && m >= 1
    ensures e * m >= m
  {
    assert e * m == (e - 1) * m + m;
  }

  /** Euclidean division is unique: a representation `q * m + r` with
      `0 <= r < m` gives the remainder. */
  lemma ModUnique(a: int, m: int, q: int, r: int)
    requires m >= 1 && a == q * m + r && 0 <= r < m
    ensures a % m == r
  {
    var q', r' := a / m, a % m;
    assert (q - q') * m == r' - r;
    if q > q' {
      MultipleAtLeast(q - q', m);
    } else if q < q' {
      MultipleAtLeast(q' - q, m);
    }
  }

  /** The successor's remainder: one more, or 0 on wrapping. */
  lemma ModSucc(j: nat, m: int)
    requires m >= 1
    ensures j % m + 1 < m ==> (j + 1) % m == j % m + 1
    ensures j % m + 1 >= m ==> (j + 1) % m == 0
  {
    var q, r := j / m, j % m;
    if r + 1 < m {
      ModUnique(j + 1, m, q, r + 1);
    } else {
      ModUnique(j + 1, m, q + 1, 0);
    }
  }

  /** Counter after `k` epochs from a fresh coordinator. */
  function CountAfter(interval: int, k: nat): int
  {
    if k == 0 then 0 else NextCount(interval, CountAfter(interval, k - 1))
  }

  /** The cadence: after `k` epochs the counter is `k mod interval`. */
  lemma {:induction false} CountAfterIsMod(interval: int, k: nat)
    requires interval >= 1
    ensures CountAfter(interval, k) == k % interval
  {
    if k > 0 {
      CountAfterIsMod(interval, k - 1);
      ModSucc(k - 1, interval);
    }
  }

  /** The k-th epoch (counting from 1) recomputes iff k is a multiple of
      the interval. */
  lemma RecomputesEveryInterval(interval: int, k: nat)
    requires interval >= 1 && k >= 1
    ensures CountAfter(interval, k - 1) + 1 >= interval <==> k % interval == 0
  {
    CountAfterIsMod(interval, k - 1);
    ModSucc(k - 1, interval);
  }

  /** A single epoch at interval 1 always recomputes: the coordinator then
      acts on every epoch. */
  lemma IntervalOneRecomputesEveryEpoch(c: Coordinator, rs: seq<Runners.Runner>,
                                        utilities: seq<real>, rawStd: real, solve: Solver)
    requires Valid(c) && c.interval == 1 && |utilities| == |rs|
    ensures OnEpoch(c, rs, utilities, rawStd, solve).1
            == Recompute(c, rs, utilities, rawStd, solve).1
  {
  }
}
