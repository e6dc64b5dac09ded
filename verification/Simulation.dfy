/** The trajectory simulator: reserve-only dynamics with a fixed capacity and an
    inert strain output, integrated with forward Euler at a fixed step. */
module Simulation {
  import opened Clamp

  /** Cycling direction: how strongly regeneration is turned toward the reserve. */
  datatype Direction = Inward | Balanced | Outward

  /** What the cultivator is doing, which bounds how much of the time they can cycle. */
  datatype Context = Resting | Moving | Fighting

  /** The arguments of one simulation run. */
  datatype SimArgs = SimArgs(
    durationMin: real,
    dtMin: real,
    initialReservePct: real,
    initialCapacity: real,
    direction: Direction,
    ease: real,
    density: real,
    matchScore: real,
    context: Context)

  /** One recorded sample of the trajectory. */
  datatype SimPoint = SimPoint(t: real, reserve: real, capacity: real, strain: real)

  /** Intake per minute before any multiplier. */
  const BaseIntake: real := 10.0

  /** Fraction of the reserve lost per minute. */
  const LossRate: real := 0.01

  /** Tolerance that keeps the sample at t == durationMin. */
  const Epsilon: real := 1e-9

  /** x * y stays in [0, y] when x lies in [0, 1] and y in [0, 1]. */
  lemma UnitProduct(x: real, y: real)
    requires 0.0 <= x <= 1.0 && 0.0 <= y <= 1.0
    ensures 0.0 <= x * y <= y
  {
  }

  /** A fraction in [0, 1] of a non-negative k lies in [0, k]. */
  lemma FractionOf(p: real, k: real)
    requires 0.0 <= p <= 1.0 && 0.0 <= k
    ensures 0.0 <= p * k <= k
  {
    assert p * k <= 1.0 * k;
  }

  /** Direction multiplier table. */
  function DirMult(d: Direction): (r: real)
    ensures 0.4 <= r <= 1.0
    ensures r == 1.0 <==> d == Inward
  {
    match d
    case Inward => 1.0
    case Balanced => 0.7
    case Outward => 0.4
  }

  /** Context uptime table. */
  function ContextUptime(c: Context): (r: real)
    ensures 0.45 <= r <= 1.0
    ensures r == 1.0 <==> c == Resting
  {
    match c
    case Resting => 1.0
    case Moving => 0.7
    case Fighting => 0.45
  }

  /** Fraction of the time effectively spent cycling: easy techniques and calm
      contexts raise it. */
  function Uptime(a: SimArgs): (r: real)
    ensures 0.0 <= r <= 1.0
  {
    var e := Clamp01(a.ease);
    var easeUptime := 0.35 + 0.65 * e;
    Clamp01(ContextUptime(a.context) * easeUptime)
  }

  /** The clamp on the uptime never bites: the uptime is exactly the context
      uptime times the ease uptime, and never below 0.45 * 0.35. */
  lemma UptimeUnclamped(a: SimArgs)
    ensures Uptime(a) == ContextUptime(a.context) * (0.35 + 0.65 * Clamp01(a.ease))
    ensures 0.1575 <= Uptime(a) <= 1.0
  {
    var c, u := ContextUptime(a.context), 0.35 + 0.65 * Clamp01(a.ease);
    assert 0.0 <= c * u <= u;
    assert c * u >= 0.45 * u;
    assert 0.45 * u >= 0.1575;
  }

  /** Effectiveness of the match score: never below the 0.15 mismatch floor. */
  function MatchEff(a: SimArgs): (r: real)
    ensures 0.15 <= r <= 1.0
  {
    0.15 + 0.85 * Clamp01(a.matchScore)
  }

  /** Ceiling multiplier from ease: easy techniques cap the regeneration rate lower. */
  function EaseCeilingMult(a: SimArgs): (r: real)
    ensures 0.3 <= r <= 1.0
  {
    1.0 - 0.7 * Clamp01(a.ease)
  }

  /** The regeneration ceiling: at least 0 and at most the base intake. */
  function Ceiling(a: SimArgs): (r: real)
    ensures 0.0 <= r <= BaseIntake
  {
    var d, m, dir, ecm := Clamp01(a.density), MatchEff(a), DirMult(a.direction), EaseCeilingMult(a);
    UnitProduct(d, m);
    UnitProduct(d * m, dir);
    UnitProduct(d * m * dir, ecm);
    BaseIntake * d * m * dir * ecm
  }

  /** Capacity K: floored at 1 so that fullness is always defined. */
  function Capacity(a: SimArgs): (k: real)
    ensures k >= 1.0 && k >= a.initialCapacity
    ensures k == a.initialCapacity || k == 1.0
  {
    Max(1.0, a.initialCapacity)
  }

  /** The starting reserve: the clamped fraction of the capacity. The outer
      clamp into [0, K] never bites. */
  function InitialReserve(a: SimArgs): (m: real)
    ensures m == Clamp01(a.initialReservePct) * Capacity(a)
    ensures 0.0 <= m <= Capacity(a)
  {
    var k := Capacity(a);
    var p := Clamp01(a.initialReservePct);
    FractionOf(p, k);
    Max(0.0, Min(k, p * k))
  }

  /** One forward-Euler step of the reserve M: regeneration that fades linearly
      to 0 at fullness, minus proportional loss, clamped into [0, K]. */
  function Step(m: real, k: real, uptime: real, ceiling: real, dt: real): (r: real)
    ensures 0.0 <= k ==> 0.0 <= r <= k
  {
    var fullness := if k > 0.0 then m / k else 0.0;
    var regen := uptime * ceiling * Max(0.0, 1.0 - fullness);
    var loss := LossRate * m;
    var dMdt := regen - loss;
    Max(0.0, Min(k, m + dMdt * dt))
  }

  /** The reserve after i steps. */
  function ReserveAt(a: SimArgs, i: nat): (m: real)
    ensures 0.0 <= m <= Capacity(a)
  {
    if i == 0 then InitialReserve(a)
    else Step(ReserveAt(a, i - 1), Capacity(a), Uptime(a), Ceiling(a), a.dtMin)
  }

  /** The time of sample i: dt added i times, as the loop does. */
  function TimeAt(dt: real, i: nat): (r: real)
  {
    if i == 0 then 0.0 else TimeAt(dt, i - 1) + dt
  }

  /** Accumulating dt i times lands exactly on i * dt. */
  lemma {:induction false} TimeAtProduct(dt: real, i: nat)
    ensures TimeAt(dt, i) == i as real * dt
  {
    if i != 0 {
      TimeAtProduct(dt, i - 1);
      assert (i - 1) as real * dt + dt == i as real * dt;
    }
  }

  /** The loop ends: either the step is positive, or the first test already fails. */
  predicate Terminates(a: SimArgs)
  {
    a.dtMin > 0.0 || a.durationMin + Epsilon < 0.0
  }

  /** How many samples the loop records. */
  function SampleCount(a: SimArgs): (n: nat)
    requires Terminates(a)
    ensures n == 0 <==> a.durationMin + Epsilon < 0.0
  {
    var bound := a.durationMin + Epsilon;
    if bound < 0.0 then 0
    else
      assert bound / a.dtMin >= 0.0;
      (bound / a.dtMin).Floor + 1
  }

  /** The samples simulate returns: sample i is taken at i steps, before the
      i-th update, with the fixed capacity and zero strain. */
  function Samples(a: SimArgs): (s: seq<SimPoint>)
    requires Terminates(a)
    ensures |s| == SampleCount(a)
  {
    seq(SampleCount(a), i requires 0 <= i => SimPoint(TimeAt(a.dtMin, i), ReserveAt(a, i), Capacity(a), 0.0))
  }

  /** x * dt <= b exactly when x <= b / dt, for a positive dt. */
  lemma ScaleBelow(x: real, dt: real, b: real)
    requires dt > 0.0
    ensures x * dt <= b <==> x <= b / dt
  {
    assert b == (b / dt) * dt;
    if x <= b / dt {
      assert x * dt <= (b / dt) * dt;
    } else {
      assert x * dt > (b / dt) * dt;
    }
  }

  /** Sample i exists exactly when i * dtMin <= durationMin + 1e-9: the loop
      test, with t accumulated exactly. */
  lemma SampleCountSpec(a: SimArgs, i: nat)
    requires a.dtMin > 0.0
    ensures i < SampleCount(a) <==> TimeAt(a.dtMin, i) <= a.durationMin + Epsilon
    ensures i < SampleCount(a) <==> i as real * a.dtMin <= a.durationMin + Epsilon
  {
    var bound := a.durationMin + Epsilon;
    TimeAtProduct(a.dtMin, i);
    ScaleBelow(i as real, a.dtMin, bound);
    if bound >= 0.0 {
      var q := bound / a.dtMin;
      assert q.Floor as real <= q < q.Floor as real + 1.0;
    } else {
      assert i as real * a.dtMin >= 0.0;
    }
  }

  /** The samples up to i + 1 are those up to i followed by sample i. */
  lemma SamplesExtend(a: SimArgs, i: nat)
    requires Terminates(a) && i < SampleCount(a)
    ensures Samples(a)[..i + 1] ==
      Samples(a)[..i] + [SimPoint(TimeAt(a.dtMin, i), ReserveAt(a, i), Capacity(a), 0.0)]
  {
    assert Samples(a)[i] == SimPoint(TimeAt(a.dtMin, i), ReserveAt(a, i), Capacity(a), 0.0);
    assert Samples(a)[..i + 1] == Samples(a)[..i] + [Samples(a)[i]];
  }

  /** The body of the simulation loop after the sample is recorded: fullness,
      regeneration, loss and the clamped Euler update of the reserve. */
  method EulerStep(m: real, k: real, uptime: real, ceiling: real, dt: real) returns (next: real)
    ensures next == Step(m, k, uptime, ceiling, dt)
    ensures 0.0 <= k ==> 0.0 <= next <= k
  {
    var fullness := if k > 0.0 then m / k else 0.0;
    var regen := uptime * ceiling * Max(0.0, 1.0 - fullness);
    var loss := LossRate * m;
    var dMdt := regen - loss;
    next := Max(0.0, Min(k, m + dMdt * dt));
  }

  /** simulate: records a sample, then advances the reserve one step, while
      t <= durationMin + 1e-9. */
  method Simulate(a: SimArgs) returns (points: seq<SimPoint>)
    requires Terminates(a)
    ensures points == Samples(a)
    ensures forall j :: 0 <= j < |points| ==>
      0.0 <= points[j].reserve <= points[j].capacity &&
      points[j].capacity == Capacity(a) && points[j].strain == 0.0
  {
    var t := 0.0;
    var k := Max(1.0, a.initialCapacity);
    var m := Max(0.0, Min(k, Clamp01(a.initialReservePct) * k));
    var d := 0.0;
    var uptime := Uptime(a);
    var ceiling := Ceiling(a);
    points := [];
    ghost var i: nat := 0;
    assert m == ReserveAt(a, 0);
    while t <= a.durationMin + Epsilon
      invariant i <= SampleCount(a)
      invariant t == TimeAt(a.dtMin, i)
      invariant m == ReserveAt(a, i)
      invariant points == Samples(a)[..i]
      decreases SampleCount(a) - i
    {
      SampleCountSpec(a, i);
      SamplesExtend(a, i);
      points := points + [SimPoint(t, m, k, d)];
      m := EulerStep(m, k, uptime, ceiling, a.dtMin);
      t := t + a.dtMin;
      i := i + 1;
    }
    if a.dtMin > 0.0 {
      SampleCountSpec(a, i);
    }
    assert points == Samples(a);
  }

  /** Every sample keeps the reserve within [0, capacity], the capacity fixed
      at K and the strain at 0; sample i is taken at time i * dtMin. */
  lemma SamplesInvariant(a: SimArgs)
    requires Terminates(a)
    ensures forall j :: 0 <= j < |Samples(a)| ==>
      0.0 <= Samples(a)[j].reserve <= Samples(a)[j].capacity &&
      Samples(a)[j].capacity == Capacity(a) && Samples(a)[j].strain == 0.0 &&
      Samples(a)[j].t == j as real * a.dtMin
  {
    forall j | 0 <= j < |Samples(a)|
      ensures Samples(a)[j].t == j as real * a.dtMin
    {
      TimeAtProduct(a.dtMin, j);
    }
  }

  /** With a positive step, the run records at least one sample exactly when
      durationMin + 1e-9 is not negative. */
  lemma NonEmptyIff(a: SimArgs)
    requires a.dtMin > 0.0
    ensures |Samples(a)| > 0 <==> a.durationMin + Epsilon >= 0.0
  {
    SampleCountSpec(a, 0);
  }

  /** The first sample sits at t = 0 with the clamped initial fraction of the
      capacity, the capacity itself and zero strain. */
  lemma FirstSample(a: SimArgs)
    requires Terminates(a) && a.durationMin >= 0.0
    ensures |Samples(a)| >= 1
    ensures Samples(a)[0] ==
      SimPoint(0.0, Clamp01(a.initialReservePct) * Capacity(a), Capacity(a), 0.0)
  {
    SampleCountSpec(a, 0);
  }

  /** Consecutive samples are one Euler step apart: the time advances by dtMin
      and the reserve is the step of the previous one, with the run's fixed
      capacity, uptime and ceiling. */
  lemma ConsecutiveSamples(a: SimArgs, i: nat)
    requires Terminates(a) && i + 1 < |Samples(a)|
    ensures Samples(a)[i + 1].t == Samples(a)[i].t + a.dtMin
    ensures Samples(a)[i + 1].reserve ==
      Step(Samples(a)[i].reserve, Capacity(a), Uptime(a), Ceiling(a), a.dtMin)
  {
    assert Samples(a)[i].reserve == ReserveAt(a, i);
    assert Samples(a)[i + 1].reserve == ReserveAt(a, i + 1);
  }

  /** Regeneration never drains the reserve: over one step with dt >= 0 the
      reserve falls by at most the proportional loss. */
  lemma StepLosesAtMostLoss(m: real, k: real, uptime: real, ceiling: real, dt: real)
    requires 0.0 <= m <= k && 0.0 <= uptime && 0.0 <= ceiling && 0.0 <= dt
    ensures Step(m, k, uptime, ceiling, dt) >= m - LossRate * m * dt
  {
    var fullness := if k > 0.0 then m / k else 0.0;
    var regen := uptime * ceiling * Max(0.0, 1.0 - fullness);
    assert uptime * ceiling >= 0.0;
    assert regen >= 0.0;
    assert regen * dt >= 0.0;
    assert (regen - LossRate * m) * dt == regen * dt - LossRate * m * dt;
    var x := m + (regen - LossRate * m) * dt;
    assert x >= m - LossRate * m * dt;
    assert LossRate * m * dt >= 0.0;
    assert Step(m, k, uptime, ceiling, dt) == Max(0.0, Min(k, x));
  }

  /** At full capacity regeneration has faded to 0 and only the loss acts. */
  lemma StepAtFull(k: real, uptime: real, ceiling: real, dt: real)
    requires k > 0.0 && 0.0 <= dt <= 100.0
    ensures Step(k, k, uptime, ceiling, dt) == k - LossRate * k * dt
  {
    assert k / k == 1.0;
    assert LossRate * k * dt <= k;
  }

  /** The reserve at which regeneration and loss balance. */
  function Equilibrium(k: real, uptime: real, ceiling: real): (e: real)
    requires k > 0.0 && 0.0 <= uptime && 0.0 <= ceiling
    ensures 0.0 <= e <= k
  {
    var g := uptime * ceiling;
    var d := g + LossRate * k;
    assert g >= 0.0;
    assert 0.0 <= g * k / d <= k by {
      assert g * k <= d * k;
      assert g * k / d <= d * k / d;
    }
    g * k / d
  }

  /** The equilibrium is a fixed point of the step, whatever dt: there the
      regeneration exactly pays for the loss. */
  lemma EquilibriumIsFixed(k: real, uptime: real, ceiling: real, dt: real)
    requires k > 0.0 && 0.0 <= uptime && 0.0 <= ceiling
    ensures Step(Equilibrium(k, uptime, ceiling), k, uptime, ceiling, dt) == Equilibrium(k, uptime, ceiling)
  {
    var g := uptime * ceiling;
    var e := Equilibrium(k, uptime, ceiling);
    var d := g + LossRate * k;
    assert e == g * k / d;
    BalanceAt(g, k);
    assert LossRate * k / d >= 0.0;
    assert Max(0.0, 1.0 - e / k) == LossRate * k / d;
    assert uptime * ceiling * Max(0.0, 1.0 - e / k) == LossRate * e;
  }

  /** The algebra behind the fixed point: with d = g + LossRate * k, the
      fullness at the equilibrium is g / d, what is left of it is
      LossRate * k / d, and regeneration over that balances the loss. */
  lemma BalanceAt(g: real, k: real)
    requires k > 0.0 && g >= 0.0
    ensures
      var e := g * k / (g + LossRate * k);
      1.0 - e / k == LossRate * k / (g + LossRate * k) &&
      g * (LossRate * k / (g + LossRate * k)) == LossRate * e
  {
    var d := g + LossRate * k;
    var q, r := g / d, LossRate * k / d;
    var e := g * k / d;
    assert q * d == g && r * d == LossRate * k;
    assert (q + r) * d == q * d + r * d;
    assert q + r == 1.0;
    assert e == q * k by {
      assert e * d == g * k;
      assert (q * k) * d == g * k;
    }
    assert e / k == q;
    assert g * r == LossRate * e by {
      assert (g * r) * d == g * (LossRate * k);
      assert (LossRate * e) * d == LossRate * (g * k);
    }
  }

  /** The calculator's opening state: Twin Stars in Sacred Valley (density 0.15,
      match 0.05), two hours at half-minute steps from 35% of a capacity of 100,
      cycling inward at rest with ease 0.6. It records 241 samples, starts at 35
      and loses reserve on the first step, since the weak regeneration there
      cannot pay for the loss at 35. */
  lemma DefaultRun()
    ensures
      var a := SimArgs(120.0, 0.5, 0.35, 100.0, Inward, 0.6, 0.15, 0.05, Resting);
      |Samples(a)| == 241 &&
      Samples(a)[0] == SimPoint(0.0, 35.0, 100.0, 0.0) &&
      Samples(a)[1] == SimPoint(0.5, 34.8652777375, 100.0, 0.0) &&
      Samples(a)[240].t == 120.0
  {
    var a := SimArgs(120.0, 0.5, 0.35, 100.0, Inward, 0.6, 0.15, 0.05, Resting);
    assert Uptime(a) == 0.74;
    assert Ceiling(a) == 0.167475;
    assert ReserveAt(a, 0) == 35.0;
    assert ReserveAt(a, 1) == 34.8652777375;
    assert Samples(a)[1] == SimPoint(TimeAt(0.5, 1), ReserveAt(a, 1), 100.0, 0.0);
    TimeAtProduct(0.5, 240);
  }
}
