/** The piecewise-linear and bookkeeping parts of the Bellman mean-field
    solver (model/SprintingBellmanDemo.java): the trip curve, the grid over
    the utility domain with its trapezoid weights, the grid index lookup
    `idx` with Java's rounding and narrowing, the closed-form recovery and
    cooling values, the sprint/wait comparison, and the fields `solve`
    fills in its converged and non-converged exits. Doubles are modelled
    as exact reals; the value-iteration loops and the utility densities
    are not modelled, a density is any function passed in. */
module Bellman {
  import opened Basics

  /** `Params`: rack size, trip-curve knees, the probabilities of staying in
      cooling and in recovery, the discount, the utility domain and the
      grid size. */
  datatype Params = Params(
    n: int,
    nMin: int,
    nMax: int,
    pc: real,
    pr: real,
    delta: real,
    uMin: real,
    uMax: real,
    gridU: int)

  /** The field initialisers of `Params`. */
  const Defaults: Params := Params(1000, 250, 750, 0.50, 0.88, 0.99, 0.0, 1.0, 800)

  const IntMin: int := -0x8000_0000
  const IntMax: int := 0x7fff_ffff
  const LongMin: int := -0x8000_0000_0000_0000
  const LongMax: int := 0x7fff_ffff_ffff_ffff

  /** A grid of at least two points (a Java `int` count) over a non-empty
      utility interval, so that the step is a positive finite number. */
  predicate GridOk(p: Params)
  {
    2 <= p.gridU <= IntMax && p.uMin < p.uMax
  }

  /** Probabilities in range and a discount in [0, 1]: the closed-form
      denominators are then positive. */
  predicate WellPosed(p: Params)
  {
    GridOk(p) && 0.0 <= p.pc < 1.0 && 0.0 <= p.pr < 1.0 && 0.0 <= p.delta <= 1.0
  }

  lemma DefaultsWellPosed()
    ensures WellPosed(Defaults)
    ensures Defaults.nMin < Defaults.nMax <= Defaults.n
  {
  }

  // ---------------------------------------------------------------------
  // Trip curve

  /** `tripCurve`: probability that a rack with `nS` expected sprinters
      trips its breaker. */
  function TripCurve(nS: real, nMin: int, nMax: int): (p: real)
    ensures 0.0 <= p <= 1.0
    ensures nS < nMin as real ==> p == 0.0
    ensures nMin as real <= nS && nMax as real < nS ==> p == 1.0
    ensures nMin as real <= nS <= nMax as real && nMin == nMax ==> p == 1.0
  {
    if nS < nMin as real then 0.0
    else if nS > nMax as real then 1.0
    else if nMax == nMin then 1.0
    else
      var span := (nMax - nMin) as real;
      assert 0.0 <= (nS - nMin as real) / span <= 1.0 by {
        DivBetween(nS - nMin as real, span);
      }
      (nS - nMin as real) / span
  }

  lemma DivBetween(x: real, d: real)
    requires 0.0 <= x <= d && d > 0.0
    ensures 0.0 <= x / d <= 1.0
  {
    assert (x / d) * d == x;
  }

  lemma DivMul(x: real, d: real)
    requires d != 0.0
    ensures (x / d) * d == x
  {
  }

  lemma DivMonotone(x: real, y: real, d: real)
    requires x <= y && d > 0.0
    ensures x / d <= y / d
  {
    assert (x / d) * d == x && (y / d) * d == y;
    assert (y / d - x / d) * d == y - x;
  }

  /** Between distinct knees the curve rises linearly: its value times the
      knee distance is the distance of `nS` above the lower knee. */
  lemma TripCurveLinearPiece(nS: real, nMin: int, nMax: int)
    requires nMin < nMax && nMin as real <= nS <= nMax as real
    ensures TripCurve(nS, nMin, nMax) * (nMax - nMin) as real == nS - nMin as real
  {
    DivMul(nS - nMin as real, (nMax - nMin) as real);
  }

  /** More expected sprinters never lower the trip probability, for any
      knees. */
  lemma TripCurveMonotone(a: real, b: real, nMin: int, nMax: int)
    requires a <= b
    ensures TripCurve(a, nMin, nMax) <= TripCurve(b, nMin, nMax)
  {
    if nMin as real <= a <= nMax as real && nMin < nMax && b <= nMax as real {
      DivMonotone(a - nMin as real, b - nMin as real, (nMax - nMin) as real);
    }
  }

  /** With distinct knees the linear piece meets both flat pieces: the curve
      is 0 at `nMin`, 1 at `nMax`, and halfway between them at the mean. */
  lemma TripCurveKnees(nMin: int, nMax: int)
    requires nMin < nMax
    ensures TripCurve(nMin as real, nMin, nMax) == 0.0
    ensures TripCurve(nMax as real, nMin, nMax) == 1.0
    ensures TripCurve((nMin + nMax) as real / 2.0, nMin, nMax) == 0.5
  {
    var span := (nMax - nMin) as real;
    var mid := (nMin + nMax) as real / 2.0;
    assert mid - nMin as real == span / 2.0;
    assert (span / 2.0) / span == 0.5;
    assert span / span == 1.0;
  }

  // ---------------------------------------------------------------------
  // Grid and trapezoid integration

  /** The grid step `du`. */
  function Du(p: Params): (du: real)
    requires GridOk(p)
    ensures du > 0.0
  {
    (p.uMax - p.uMin) / (p.gridU - 1) as real
  }

  /** `gridU - 1` steps span the utility domain exactly. */
  lemma DuSpansDomain(p: Params)
    requires GridOk(p)
    ensures Du(p) * (p.gridU - 1) as real == p.uMax - p.uMin
  {
    DivMul(p.uMax - p.uMin, (p.gridU - 1) as real);
  }

  /** `gridU[i]`. */
  function GridPoint(p: Params, i: int): real
    requires GridOk(p)
  {
    p.uMin + i as real * Du(p)
  }

  /** The grid starts at `uMin`, ends exactly at `uMax` and increases
      strictly in between. */
  lemma GridShape(p: Params)
    requires GridOk(p)
    ensures GridPoint(p, 0) == p.uMin
    ensures GridPoint(p, p.gridU - 1) == p.uMax
    ensures forall i, j :: 0 <= i < j < p.gridU ==> GridPoint(p, i) < GridPoint(p, j)
  {
    forall i, j | 0 <= i < j < p.gridU
      ensures GridPoint(p, i) < GridPoint(p, j)
    {
      assert GridPoint(p, j) - GridPoint(p, i) == (j - i) as real * Du(p);
    }
  }

  /** Trapezoid weight of grid point `i`: a half at both ends. */
  function Weight(p: Params, i: int): real
  {
    if i == 0 || i == p.gridU - 1 then 0.5 else 1.0
  }

  /** Total weight of the first `k` grid points. */
  function WeightTotal(p: Params, k: int): real
    requires 0 <= k
  {
    if k == 0 then 0.0 else WeightTotal(p, k - 1) + Weight(p, k - 1)
  }

  /** The weights add up to the number of grid intervals, `gridU - 1`; every
      proper non-empty prefix falls half a unit short of its length. */
  lemma {:induction false} WeightTotalClosedForm(p: Params, k: int)
    requires GridOk(p) && 0 <= k <= p.gridU
    ensures WeightTotal(p, k) == if k == 0 then 0.0
                                 else if k < p.gridU then k as real - 0.5
                                 else (p.gridU - 1) as real
  {
    if k > 0 {
      WeightTotalClosedForm(p, k - 1);
    }
  }

  /** The weighted sum `sum += w * g(u)` over the first `k` grid points. */
  function WeightedSum(p: Params, g: real -> real, k: int): real
    requires GridOk(p) && 0 <= k <= p.gridU
  {
    if k == 0 then 0.0
    else WeightedSum(p, g, k - 1) + Weight(p, k - 1) * g(GridPoint(p, k - 1))
  }

  /** `integrate`: the trapezoid rule over the solver grid. */
  function Integrate(p: Params, g: real -> real): real
    requires GridOk(p)
  {
    WeightedSum(p, g, p.gridU) * Du(p)
  }

  lemma {:induction false} WeightedSumAtLeast(p: Params, g: real -> real, lo: real, k: int)
    requires GridOk(p) && 0 <= k <= p.gridU
    requires forall i :: 0 <= i < p.gridU ==> lo <= g(GridPoint(p, i))
    ensures lo * WeightTotal(p, k) <= WeightedSum(p, g, k)
  {
    if k > 0 {
      WeightedSumAtLeast(p, g, lo, k - 1);
      assert lo * WeightTotal(p, k) == lo * WeightTotal(p, k - 1) + lo * Weight(p, k - 1);
    }
  }

  lemma {:induction false} WeightedSumAtMost(p: Params, g: real -> real, hi: real, k: int)
    requires GridOk(p) && 0 <= k <= p.gridU
    requires forall i :: 0 <= i < p.gridU ==> g(GridPoint(p, i)) <= hi
    ensures WeightedSum(p, g, k) <= hi * WeightTotal(p, k)
  {
    if k > 0 {
      WeightedSumAtMost(p, g, hi, k - 1);
      assert hi * WeightTotal(p, k) == hi * WeightTotal(p, k - 1) + hi * Weight(p, k - 1);
    }
  }

  /** An integrand at least `lo` on the grid integrates to at least `lo`
      times the width of the domain. */
  lemma IntegrateAtLeast(p: Params, g: real -> real, lo: real)
    requires GridOk(p)
    requires forall i :: 0 <= i < p.gridU ==> lo <= g(GridPoint(p, i))
    ensures lo * (p.uMax - p.uMin) <= Integrate(p, g)
  {
    var du := Du(p);
    var w := (p.gridU - 1) as real;
    WeightedSumAtLeast(p, g, lo, p.gridU);
    WeightTotalClosedForm(p, p.gridU);
    MulRight(lo * w, WeightedSum(p, g, p.gridU), du);
    assert lo * w * du == lo * (p.uMax - p.uMin);
  }

  /** An integrand at most `hi` on the grid integrates to at most `hi` times
      the width of the domain. */
  lemma IntegrateAtMost(p: Params, g: real -> real, hi: real)
    requires GridOk(p)
    requires forall i :: 0 <= i < p.gridU ==> g(GridPoint(p, i)) <= hi
    ensures Integrate(p, g) <= hi * (p.uMax - p.uMin)
  {
    var du := Du(p);
    var w := (p.gridU - 1) as real;
    WeightedSumAtMost(p, g, hi, p.gridU);
    WeightTotalClosedForm(p, p.gridU);
    MulRight(WeightedSum(p, g, p.gridU), hi * w, du);
    assert hi * w * du == hi * (p.uMax - p.uMin);
  }

  /** A constant integrates exactly to itself times the domain width. */
  lemma IntegrateConstant(p: Params, g: real -> real, c: real)
    requires GridOk(p)
    requires forall i :: 0 <= i < p.gridU ==> g(GridPoint(p, i)) == c
    ensures Integrate(p, g) == c * (p.uMax - p.uMin)
  {
    IntegrateAtLeast(p, g, c);
    IntegrateAtMost(p, g, c);
  }

  lemma MulRight(x: real, y: real, d: real)
    requires x <= y && d >= 0.0
    ensures x * d <= y * d
  {
    assert y * d - x * d == (y - x) * d;
  }

  lemma {:induction false} WeightedSumMonotone(p: Params, f: real -> real, g: real -> real, k: int)
    requires GridOk(p) && 0 <= k <= p.gridU
    requires forall i :: 0 <= i < p.gridU ==> f(GridPoint(p, i)) <= g(GridPoint(p, i))
    ensures WeightedSum(p, f, k) <= WeightedSum(p, g, k)
  {
    if k > 0 {
      WeightedSumMonotone(p, f, g, k - 1);
    }
  }

  /** The integral only looks at the grid, and a pointwise larger integrand
      there has a larger integral. */
  lemma IntegrateMonotone(p: Params, f: real -> real, g: real -> real)
    requires GridOk(p)
    requires forall i :: 0 <= i < p.gridU ==> f(GridPoint(p, i)) <= g(GridPoint(p, i))
    ensures Integrate(p, f) <= Integrate(p, g)
  {
    WeightedSumMonotone(p, f, g, p.gridU);
    MulRight(WeightedSum(p, f, p.gridU), WeightedSum(p, g, p.gridU), Du(p));
  }

  // ---------------------------------------------------------------------
  // Grid index lookup

  /** `Math.round` before saturation: the nearest integer, halves up. */
  function RoundHalfUp(x: real): (n: int)
    ensures n as real <= x + 0.5 < n as real + 1.0
  {
    (x + 0.5).Floor
  }

  /** `Math.round(double)`: a `long`, saturated at the `long` range. */
  function JavaRound(x: real): (n: int)
    ensures LongMin <= n <= LongMax
    ensures LongMin <= RoundHalfUp(x) <= LongMax ==> n == RoundHalfUp(x)
    ensures RoundHalfUp(x) < LongMin ==> n == LongMin
    ensures LongMax < RoundHalfUp(x) ==> n == LongMax
  {
    var r := RoundHalfUp(x);
    if r < LongMin then LongMin else if r > LongMax then LongMax else r
  }

  /** The `(int)` cast of a `long`: keep the low 32 bits, two's complement. */
  function ToInt(v: int): (i: int)
    ensures IntMin <= i <= IntMax
    ensures IntMin <= v <= IntMax ==> i == v
    ensures (v - i) % 0x1_0000_0000 == 0
  {
    var m := (v - IntMin) % 0x1_0000_0000;
    assert v - IntMin == ((v - IntMin) / 0x1_0000_0000) * 0x1_0000_0000 + m;
    m + IntMin
  }

  /** `idx`: the grid index nearest to `u`, after Java's rounding and cast,
      pushed back into `[0, gridU - 1]`. */
  function Idx(p: Params, u: real): (i: int)
    requires GridOk(p)
    ensures 0 <= i < p.gridU
    ensures var x := RoundHalfUp((u - p.uMin) / Du(p));
            0 <= x < p.gridU ==> i == x
    ensures var x := RoundHalfUp((u - p.uMin) / Du(p));
            IntMin <= x < 0 ==> i == 0
    ensures var x := RoundHalfUp((u - p.uMin) / Du(p));
            p.gridU <= x <= IntMax ==> i == p.gridU - 1
  {
    var i := ToInt(JavaRound((u - p.uMin) / Du(p)));
    if i < 0 then 0 else if i >= p.gridU then p.gridU - 1 else i
  }

  lemma CancelPositive(x: real, c: real, d: real)
    requires d > 0.0 && x * d <= c * d
    ensures x <= c
  {
    assert (c - x) * d >= 0.0;
  }

  /** Looking up a grid point returns its own index. */
  lemma IdxOfGridPoint(p: Params, i: int)
    requires GridOk(p) && 0 <= i < p.gridU
    ensures Idx(p, GridPoint(p, i)) == i
  {
    var du := Du(p);
    assert (GridPoint(p, i) - p.uMin) / du == i as real;
  }

  lemma HalfStep(e: real, du: real)
    requires -0.5 <= e <= 0.5 && du >= 0.0
    ensures -du / 2.0 <= e * du <= du / 2.0
  {
    MulRight(e, 0.5, du);
    MulRight(-0.5, e, du);
  }

  /** Inside the domain the rounded position is already a grid index, so
      neither the saturation nor the cast changes it. */
  lemma IdxInDomain(p: Params, u: real)
    requires GridOk(p) && p.uMin <= u <= p.uMax
    ensures var n := RoundHalfUp((u - p.uMin) / Du(p));
            0 <= n < p.gridU && Idx(p, u) == n
  {
    var du := Du(p);
    var x := (u - p.uMin) / du;
    DivMonotone(0.0, u - p.uMin, du);
    DuSpansDomain(p);
    DivMul(u - p.uMin, du);
    CancelPositive(x, (p.gridU - 1) as real, du);
  }

  /** Inside the domain the index is that of a nearest grid point. */
  lemma IdxNearest(p: Params, u: real)
    requires GridOk(p) && p.uMin <= u <= p.uMax
    ensures -Du(p) / 2.0 <= GridPoint(p, Idx(p, u)) - u <= Du(p) / 2.0
  {
    var du := Du(p);
    var x := (u - p.uMin) / du;
    var n := RoundHalfUp(x);
    IdxInDomain(p, u);
    DivMul(u - p.uMin, du);
    assert GridPoint(p, n) - u == (n as real - x) * du;
    HalfStep(n as real - x, du);
  }

  /** The narrowing cast wraps: a utility 2^32 grid steps above `uMin`, far
      beyond `uMax`, maps to index 0 rather than to the last grid point. */
  lemma IdxWrapsBeyondIntRange()
    ensures GridOk(Defaults)
    ensures Idx(Defaults, 0x1_0000_0000 as real / 799.0) == 0
  {
    assert Du(Defaults) == 1.0 / 799.0;
    assert (0x1_0000_0000 as real / 799.0 - 0.0) / (1.0 / 799.0) == 0x1_0000_0000 as real;
  }

  // ---------------------------------------------------------------------
  // Values and the sprint decision

  lemma ProductBelowOne(a: real, b: real)
    requires 0.0 <= a <= 1.0 && 0.0 <= b < 1.0
    ensures 0.0 <= a * b < 1.0
  {
    MulRight(0.0, a, b);
    MulRight(a, 1.0, b);
    assert 1.0 * b == b;
    assert a * b <= b;
  }

  /** `delta (1 - Ptrip)`: the discount on the continuation of a runner
      whose rack did not trip. */
  function SurvivalDiscount(delta: real, ptrip: real): (a: real)
    requires 0.0 <= delta <= 1.0 && 0.0 <= ptrip <= 1.0
    ensures 0.0 <= a <= 1.0
  {
    ProductBelowOneOrEqual(delta, 1.0 - ptrip);
    delta * (1.0 - ptrip)
  }

  /** `delta (1 - Ptrip) pc`: the discounted chance of staying in cooling. */
  function StayCooling(delta: real, pc: real, ptrip: real): (q: real)
    requires 0.0 <= delta <= 1.0 && 0.0 <= pc < 1.0 && 0.0 <= ptrip <= 1.0
    ensures 0.0 <= q < 1.0
  {
    var a := SurvivalDiscount(delta, ptrip);
    ProductBelowOne(a, pc);
    a * pc
  }

  /** `V(R)` in closed form from the active value `va`. */
  function RecoveryValue(p: Params, va: real): real
    requires WellPosed(p)
  {
    ProductBelowOne(p.delta, p.pr);
    (p.delta * (1.0 - p.pr) * va) / (1.0 - p.delta * p.pr)
  }

  /** The closed form solves the recovery Bellman equation
      `V(R) = delta (pr V(R) + (1 - pr) V(A))`. */
  lemma RecoveryValueFixedPoint(p: Params, va: real)
    requires WellPosed(p)
    ensures var vr := RecoveryValue(p, va);
            vr == p.delta * (p.pr * vr + (1.0 - p.pr) * va)
  {
    ProductBelowOne(p.delta, p.pr);
    DivMul(p.delta * (1.0 - p.pr) * va, 1.0 - p.delta * p.pr);
  }

  /** `V(C)` in closed form from `va`, `vr` and the trip probability. */
  function CoolingValue(p: Params, ptrip: real, va: real, vr: real): real
    requires WellPosed(p) && 0.0 <= ptrip <= 1.0
  {
    (p.delta * ((1.0 - ptrip) * (1.0 - p.pc) * va + ptrip * vr)) / (1.0 - StayCooling(p.delta, p.pc, ptrip))
  }

  /** The closed form solves the cooling Bellman equation
      `V(C) = delta ((1 - Ptrip)(pc V(C) + (1 - pc) V(A)) + Ptrip V(R))`. */
  lemma CoolingValueFixedPoint(p: Params, ptrip: real, va: real, vr: real)
    requires WellPosed(p) && 0.0 <= ptrip <= 1.0
    ensures var vc := CoolingValue(p, ptrip, va, vr);
            vc == p.delta * ((1.0 - ptrip) * (p.pc * vc + (1.0 - p.pc) * va) + ptrip * vr)
  {
    var vc := CoolingValue(p, ptrip, va, vr);
    var q := StayCooling(p.delta, p.pc, ptrip);
    DivMul(p.delta * ((1.0 - ptrip) * (1.0 - p.pc) * va + ptrip * vr), 1.0 - q);
    assert q == p.delta * (1.0 - ptrip) * p.pc;
    assert vc * (1.0 - q) == p.delta * ((1.0 - ptrip) * (1.0 - p.pc) * va + ptrip * vr);
  }

  /** `VS`: utility now plus the discounted future after sprinting. */
  function SprintValue(p: Params, u: real, ptrip: real, vc: real, vr: real): real
  {
    u + p.delta * ((1.0 - ptrip) * vc + ptrip * vr)
  }

  /** `V¬S`: the discounted future after waiting. */
  function WaitValue(p: Params, ptrip: real, va: real, vr: real): real
  {
    p.delta * ((1.0 - ptrip) * va + ptrip * vr)
  }

  /** `uT = delta (V(A) - V(C)) (1 - Ptrip)`. */
  function Threshold(p: Params, ptrip: real, va: real, vc: real): real
  {
    p.delta * (va - vc) * (1.0 - ptrip)
  }

  /** The pointwise `max(VS, V¬S)` picks sprinting exactly for utilities at
      or above the threshold the solver reports. */
  lemma SprintIffAboveThreshold(p: Params, u: real, ptrip: real, va: real, vc: real, vr: real)
    ensures SprintValue(p, u, ptrip, vc, vr) >= WaitValue(p, ptrip, va, vr)
            <==> u >= Threshold(p, ptrip, va, vc)
    ensures Max(SprintValue(p, u, ptrip, vc, vr), WaitValue(p, ptrip, va, vr))
            == if u >= Threshold(p, ptrip, va, vc) then SprintValue(p, u, ptrip, vc, vr)
               else WaitValue(p, ptrip, va, vr)
  {
    assert WaitValue(p, ptrip, va, vr) - (SprintValue(p, u, ptrip, vc, vr) - u)
           == Threshold(p, ptrip, va, vc);
  }

  /** `V_A_of_u`: the value at every grid point. */
  function PointValues(p: Params, ptrip: real, va: real): (vs: seq<real>)
    requires WellPosed(p) && 0.0 <= ptrip <= 1.0
    ensures |vs| == p.gridU
  {
    var vr := RecoveryValue(p, va);
    var vc := CoolingValue(p, ptrip, va, vr);
    seq(p.gridU, i requires 0 <= i < p.gridU =>
      Max(SprintValue(p, GridPoint(p, i), ptrip, vc, vr), WaitValue(p, ptrip, va, vr)))
  }

  /** `V_A_of_u[idx(u)]`. */
  function StoredValue(p: Params, ptrip: real, va: real, u: real): real
    requires WellPosed(p) && 0.0 <= ptrip <= 1.0
  {
    PointValues(p, ptrip, va)[Idx(p, u)]
  }

  /** The value of the better action at utility `u`, given the threshold
      and the values of sprinting and of waiting there. */
  function Choose(u: real, uT: real, sprint: real, wait: real): real
  {
    if u >= uT then sprint else wait
  }

  /** At a grid utility, the value `idx` looks up is that of the better
      action: the sprint value at or above the threshold, the wait value
      below it. */
  lemma BestResponseAt(p: Params, ptrip: real, va: real, i: int)
    requires WellPosed(p) && 0.0 <= ptrip <= 1.0 && 0 <= i < p.gridU
    ensures var vr := RecoveryValue(p, va);
            var vc := CoolingValue(p, ptrip, va, vr);
            var u := GridPoint(p, i);
            StoredValue(p, ptrip, va, u)
            == Choose(u, Threshold(p, ptrip, va, vc), SprintValue(p, u, ptrip, vc, vr), WaitValue(p, ptrip, va, vr))
  {
    var vr := RecoveryValue(p, va);
    var vc := CoolingValue(p, ptrip, va, vr);
    IdxOfGridPoint(p, i);
    SprintIffAboveThreshold(p, GridPoint(p, i), ptrip, va, vc, vr);
  }

  // ---------------------------------------------------------------------
  // Results of `solve`

  /** `Result`. */
  datatype Result = Result(
    converged: bool,
    outerIters: int,
    ptrip: real,
    thresholdUT: real,
    pSprint: real,
    pActive: real,
    expectedNSprinters: real,
    va: real,
    vc: real,
    vr: real)

  /** The trip probability `solve` starts from. */
  function InitialPtrip(ptripInit: real): (ptrip: real)
    ensures 0.0 <= ptrip <= 1.0
    ensures 0.0 <= ptripInit <= 1.0 ==> ptrip == ptripInit
    ensures ptripInit < 0.0 ==> ptrip == 0.0
    ensures 1.0 < ptripInit ==> ptrip == 1.0
  {
    Clamp(ptripInit, 0.0, 1.0)
  }

  /** Probability mass of utilities at or above `uT`. */
  function SprintMass(p: Params, pdf: real -> real, uT: real): real
    requires GridOk(p)
  {
    Integrate(p, u => (if u >= uT then 1.0 else 0.0) * pdf(u))
  }

  /** A non-negative density gives a non-negative sprinting mass, and a
      higher threshold never raises it. */
  lemma SprintMassAntitone(p: Params, pdf: real -> real, t1: real, t2: real)
    requires GridOk(p) && t1 <= t2
    requires forall i :: 0 <= i < p.gridU ==> 0.0 <= pdf(GridPoint(p, i))
    ensures 0.0 <= SprintMass(p, pdf, t2) <= SprintMass(p, pdf, t1)
  {
    SprintMassNonNegative(p, pdf, t2);
    IntegrateMonotone(p, u => (if u >= t2 then 1.0 else 0.0) * pdf(u),
                         u => (if u >= t1 then 1.0 else 0.0) * pdf(u));
  }

  lemma SprintMassNonNegative(p: Params, pdf: real -> real, uT: real)
    requires GridOk(p)
    requires forall i :: 0 <= i < p.gridU ==> 0.0 <= pdf(GridPoint(p, i))
    ensures 0.0 <= SprintMass(p, pdf, uT)
  {
    var mass := u => (if u >= uT then 1.0 else 0.0) * pdf(u);
    forall i | 0 <= i < p.gridU
      ensures 0.0 <= mass(GridPoint(p, i))
    {
    }
    IntegrateAtLeast(p, mass, 0.0);
  }

  /** `(1 - pc) / (1 + pSprint - pc)`: the stationary share of runners that
      are active rather than cooling. */
  function ActiveFraction(pc: real, pSprint: real): (a: real)
    requires 0.0 <= pc < 1.0 && 0.0 <= pSprint
    ensures 0.0 <= a <= 1.0
  {
    DivBetween(1.0 - pc, 1.0 + pSprint - pc);
    (1.0 - pc) / (1.0 + pSprint - pc)
  }

  /** The active share balances the cooling flow: `pActive (1 + pSprint -
      pc) = 1 - pc`; nobody sprinting means everybody is active. */
  lemma ActiveFractionBalance(pc: real, pSprint: real)
    requires 0.0 <= pc < 1.0 && 0.0 <= pSprint
    ensures ActiveFraction(pc, pSprint) * (1.0 + pSprint - pc) == 1.0 - pc
    ensures pSprint == 0.0 ==> ActiveFraction(pc, pSprint) == 1.0
  {
    DivMul(1.0 - pc, 1.0 + pSprint - pc);
    if pSprint == 0.0 {
      UnitFactor(ActiveFraction(pc, pSprint), 1.0 - pc);
    }
  }

  lemma UnitFactor(a: real, d: real)
    requires d > 0.0 && a * d == d
    ensures a == 1.0
  {
    assert (a - 1.0) * d == 0.0;
  }

  /** `pSprint * pActive * N`, with no range assumed of its factors. */
  function SprinterCount(pSprint: real, pActive: real, n: int): real
  {
    (pSprint * pActive) * (n as real)
  }

  /** `nS = pSprint * pActive * N`: for two probabilities, a count between
      0 and `N`. */
  function ExpectedSprinters(pSprint: real, pActive: real, n: int): (nS: real)
    requires 0.0 <= pSprint <= 1.0 && 0.0 <= pActive <= 1.0
    ensures nS == pSprint * pActive * (n as real)
    ensures n >= 0 ==> 0.0 <= nS <= n as real
  {
    var share := pSprint * pActive;
    ProductBelowOneOrEqual(pSprint, pActive);
    ScaleBound(share, n as real);
    assert SprinterCount(pSprint, pActive, n) == share * (n as real);
    SprinterCount(pSprint, pActive, n)
  }

  lemma ScaleBound(s: real, n: real)
    requires 0.0 <= s <= 1.0
    ensures n >= 0.0 ==> 0.0 <= s * n <= n
  {
    if n >= 0.0 {
      MulRight(0.0, s, n);
      MulRight(s, 1.0, n);
      assert 1.0 * n == n;
    }
  }

  /** The converged exit after the inner iteration settled on `va` under
      trip probability `ptrip`: both probabilities are clamped, so the
      expected sprinter count lies in `[0, N]`, and the reported trip
      probability is the trip curve at that count. */
  function ConvergedResult(p: Params, pdf: real -> real, ptrip: real, va: real, outerIters: int): (r: Result)
    requires WellPosed(p) && 0.0 <= ptrip <= 1.0
    ensures r.converged && r.outerIters == outerIters
    ensures r.va == va
    ensures r.vr == RecoveryValue(p, va) && r.vc == CoolingValue(p, ptrip, va, r.vr)
    ensures r.thresholdUT == Threshold(p, ptrip, va, r.vc)
    ensures 0.0 <= r.pSprint <= 1.0 && 0.0 <= r.pActive <= 1.0
    ensures r.pSprint == Clamp(SprintMass(p, pdf, r.thresholdUT), 0.0, 1.0)
    ensures r.pActive == ActiveFraction(p.pc, r.pSprint)
    ensures r.expectedNSprinters == ExpectedSprinters(r.pSprint, r.pActive, p.n)
    ensures p.n >= 0 ==> 0.0 <= r.expectedNSprinters <= p.n as real
    ensures r.ptrip == TripCurve(r.expectedNSprinters, p.nMin, p.nMax)
    ensures 0.0 <= r.ptrip <= 1.0
  {
    var vr := RecoveryValue(p, va);
    var vc := CoolingValue(p, ptrip, va, vr);
    var uT := Threshold(p, ptrip, va, vc);
    var pSprint := Clamp(SprintMass(p, pdf, uT), 0.0, 1.0);
    var pActive := Clamp(ActiveFraction(p.pc, pSprint), 0.0, 1.0);
    var nS := ExpectedSprinters(pSprint, pActive, p.n);
    Result(true, outerIters, TripCurve(nS, p.nMin, p.nMax), uT, pSprint, pActive, nS, va, vc, vr)
  }

  lemma ProductBelowOneOrEqual(a: real, b: real)
    requires 0.0 <= a <= 1.0 && 0.0 <= b <= 1.0
    ensures 0.0 <= a * b <= 1.0
  {
    MulRight(0.0, a, b);
    MulRight(a, 1.0, b);
    assert 1.0 * b == b;
    assert a * b <= b;
  }

  /** The exit after `maxOuter` outer iterations without convergence: the
      same formulas, but neither `pSprint` nor `pActive` is clamped. */
  function UnconvergedResult(p: Params, pdf: real -> real, ptrip: real, va: real, maxOuter: int): (r: Result)
    requires WellPosed(p) && 0.0 <= ptrip <= 1.0
    requires forall i :: 0 <= i < p.gridU ==> 0.0 <= pdf(GridPoint(p, i))
    ensures !r.converged && r.outerIters == maxOuter
    ensures r.ptrip == ptrip && r.va == va
    ensures r.vr == RecoveryValue(p, va) && r.vc == CoolingValue(p, ptrip, va, r.vr)
    ensures r.thresholdUT == Threshold(p, ptrip, va, r.vc)
    ensures r.pSprint == SprintMass(p, pdf, r.thresholdUT) && 0.0 <= r.pSprint
    ensures r.pActive == ActiveFraction(p.pc, r.pSprint)
    ensures r.expectedNSprinters == SprinterCount(r.pSprint, r.pActive, p.n)
  {
    var vr := RecoveryValue(p, va);
    var vc := CoolingValue(p, ptrip, va, vr);
    var uT := Threshold(p, ptrip, va, vc);
    var pSprint := SprintMass(p, pdf, uT);
    SprintMassNonNegative(p, pdf, uT);
    var pActive := ActiveFraction(p.pc, pSprint);
    Result(false, maxOuter, ptrip, uT, pSprint, pActive, SprinterCount(pSprint, pActive, p.n), va, vc, vr)
  }

  /** A two-point grid over [0, 1] in a rack of 10 with knees 2 and 6. */
  const Small: Params := Params(10, 2, 6, 0.5, 0.88, 0.99, 0.0, 1.0, 2)

  /** A density of total mass 2. */
  function TwoDensity(u: real): real
  {
    2.0
  }

  /** With nothing learned yet (`V(A) = 0`, no trip risk) the threshold is 0. */
  lemma ThresholdFromScratch()
    ensures WellPosed(Small)
    ensures Threshold(Small, 0.0, 0.0, CoolingValue(Small, 0.0, 0.0, RecoveryValue(Small, 0.0))) == 0.0
  {
    assert RecoveryValue(Small, 0.0) == 0.0;
    assert CoolingValue(Small, 0.0, 0.0, 0.0) == 0.0;
  }

  /** Every grid utility is at or above threshold 0, so the whole mass 2
      counts as sprinting. */
  lemma MassOfTwoDensity()
    ensures GridOk(Small)
    ensures SprintMass(Small, TwoDensity, 0.0) == 2.0
  {
    assert Du(Small) == 1.0;
    assert GridPoint(Small, 0) == 0.0 && GridPoint(Small, 1) == 1.0;
    assert WeightedSum(Small, u => (if u >= 0.0 then 1.0 else 0.0) * TwoDensity(u), 2) == 2.0;
  }

  /** Whenever the sprinting mass exceeds 1, the two exits disagree: the
      non-converged one reports it as is, the converged one reports 1. */
  lemma ExitsDifferAboveOne(p: Params, pdf: real -> real, ptrip: real, va: real,
                            outerIters: int, maxOuter: int)
    requires WellPosed(p) && 0.0 <= ptrip <= 1.0
    requires forall i :: 0 <= i < p.gridU ==> 0.0 <= pdf(GridPoint(p, i))
    requires SprintMass(p, pdf, Threshold(p, ptrip, va, CoolingValue(p, ptrip, va, RecoveryValue(p, va)))) > 1.0
    ensures UnconvergedResult(p, pdf, ptrip, va, maxOuter).pSprint > 1.0
    ensures ConvergedResult(p, pdf, ptrip, va, outerIters).pSprint == 1.0
  {
  }

  /** The premise is met: for a density of mass 2 and nothing learned yet,
      the sprinting mass at the threshold is 2. */
  lemma MassTwoFromScratch(p: Params)
    requires p == Small
    ensures WellPosed(p)
    ensures forall i :: 0 <= i < p.gridU ==> 0.0 <= TwoDensity(GridPoint(p, i))
    ensures SprintMass(p, TwoDensity, Threshold(p, 0.0, 0.0, CoolingValue(p, 0.0, 0.0, RecoveryValue(p, 0.0)))) == 2.0
  {
    ThresholdFromScratch();
    MassOfTwoDensity();
  }

  /** So the non-converged exit reports a sprint probability of 2 ... */
  lemma UnconvergedReportsTwo(p: Params)
    requires p == Small
    ensures WellPosed(p)
    ensures UnconvergedResult(p, TwoDensity, 0.0, 0.0, 200).pSprint == 2.0
  {
    MassTwoFromScratch(p);
  }

  /** ... where the converged exit reports 1. */
  lemma ConvergedReportsOne(p: Params)
    requires p == Small
    ensures WellPosed(p)
    ensures ConvergedResult(p, TwoDensity, 0.0, 0.0, 1).pSprint == 1.0
  {
    MassTwoFromScratch(p);
    ExitsDifferAboveOne(p, TwoDensity, 0.0, 0.0, 1, 200);
  }
}
