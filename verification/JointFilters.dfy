/** The joint-target filters: exponential and critically damped. Vectors are filtered joint by
    joint, so the theory is about one joint and the classes apply it to each. */
module JointFilters {
  import opened Reals
  import opened Wrappers

  /** Weighted mean of two values. */
  function Mix(a: real, b: real, s: real): real { (1.0 - s) * a + s * b }

  lemma MixIsBetween(a: real, b: real, s: real, lo: real, hi: real)
    requires 0.0 <= s <= 1.0 && lo <= a <= hi && lo <= b <= hi
    ensures lo <= Mix(a, b, s) <= hi
  {
    ProductNonNegative(1.0 - s, a - lo);
    ProductNonNegative(s, b - lo);
    ProductNonNegative(1.0 - s, hi - a);
    ProductNonNegative(s, hi - b);
  }

  // ---- The exponential filter on one joint ----

  function Alpha(tau: real, dt: real): real
    requires tau > 0.0 ==> dt >= 0.0
  {
    if tau <= 0.0 then 1.0 else dt / (tau + dt)
  }

  lemma AlphaIsAWeight(tau: real, dt: real)
    requires dt >= 0.0
    ensures 0.0 <= Alpha(tau, dt) <= 1.0
    ensures tau <= 0.0 ==> forall y: real, x: real :: Mix(y, x, Alpha(tau, dt)) == x
  {
    if tau > 0.0 {
      var a := dt / (tau + dt);
      assert a * (tau + dt) == dt;
      assert a >= 0.0;
      if a > 1.0 { ProductPositive(a - 1.0, tau + dt); assert (a - 1.0) * (tau + dt) == a * (tau + dt) - (tau + dt); }
    }
  }

  /** The step of the exponential filter is to the gap as the period is to the period plus tau; without
      a time constant it goes all the way. */
  lemma WeightIsExact(tau: real, dt: real, y: real, x: real)
    requires tau > 0.0 ==> dt >= 0.0
    ensures tau > 0.0 ==> (tau + dt) * (Mix(y, x, Alpha(tau, dt)) - y) == dt * (x - y)
    ensures tau <= 0.0 ==> Mix(y, x, Alpha(tau, dt)) == x
  {
    var a := Alpha(tau, dt);
    assert Mix(y, x, a) - y == a * (x - y);
    if tau > 0.0 {
      assert a * (tau + dt) == dt;
      Regrouped(tau + dt, a, x - y);
    }
  }

  lemma Regrouped(s: real, a: real, g: real)
    ensures s * (a * g) == (a * s) * g
  {
  }

  // ---- The critically damped filter on one joint ----

  datatype Damped = Damped(y: real, yd: real)

  function DampedStep(wn: real, dt: real, s: Damped, target: real): Damped {
    var accel := wn * wn * (target - s.y) - 2.0 * wn * s.yd;
    var yd := s.yd + accel * dt;
    Damped(s.y + yd * dt, yd)
  }

  /** n steps toward a constant target from rest at y0. */
  function DampedRun(wn: real, dt: real, y0: real, target: real, n: nat): Damped {
    if n == 0 then Damped(y0, 0.0) else DampedStep(wn, dt, DampedRun(wn, dt, y0, target, n - 1), target)
  }

  function Error(wn: real, dt: real, y0: real, target: real, n: nat): real {
    target - DampedRun(wn, dt, y0, target, n).y
  }

  /** The step in dimensionless form: error e, displacement u = yd * dt and w = wn * dt. */
  function NextU(w: real, e: real, u: real): real { w * w * e + (1.0 - 2.0 * w) * u }

  function Displacement(s: Damped, dt: real): real { s.yd * dt }

  lemma DimensionlessStep(wn: real, dt: real, w: real, s: Damped, target: real)
    requires w == wn * dt
    ensures var s', v := DampedStep(wn, dt, s, target), NextU(w, target - s.y, Displacement(s, dt));
            Displacement(s', dt) == v && s'.y == s.y + v
  {
    var e, u := target - s.y, s.yd * dt;
    var accel := wn * wn * e - 2.0 * wn * s.yd;
    assert accel * dt * dt == w * w * e - 2.0 * w * u;
  }

  /** Three successive positions obey the discrete second-order law, whatever the targets: the change
      of displacement is w^2 times the error less 2w times the displacement, w = wn * dt. */
  lemma PositionsObey(wn: real, dt: real, w: real, s: Damped, first: real, second: real)
    requires w == wn * dt
    ensures var a := DampedStep(wn, dt, s, first);
            var b := DampedStep(wn, dt, a, second);
            (b.y - a.y) - (a.y - s.y) == w * w * (second - a.y) - 2.0 * w * (a.y - s.y)
  {
    var a := DampedStep(wn, dt, s, first);
    DimensionlessStep(wn, dt, w, s, first);
    DimensionlessStep(wn, dt, w, a, second);
    var u := a.y - s.y;
    assert NextU(w, second - a.y, u) == w * w * (second - a.y) + (1.0 - 2.0 * w) * u;
  }

  /** n dimensionless steps from error e0 at rest. */
  function Run(w: real, e0: real, n: nat): (real, real) {
    if n == 0 then (e0, 0.0)
    else var (e, u) := Run(w, e0, n - 1); (e - NextU(w, e, u), NextU(w, e, u))
  }

  lemma {:induction false} RunIsDimensionless(wn: real, dt: real, w: real, y0: real, target: real, n: nat)
    requires w == wn * dt
    ensures Run(w, target - y0, n).0 == Error(wn, dt, y0, target, n)
    ensures Run(w, target - y0, n).1 == Displacement(DampedRun(wn, dt, y0, target, n), dt)
  {
    if n == 0 {
      assert DampedRun(wn, dt, y0, target, n) == Damped(y0, 0.0);
    } else {
      RunIsDimensionless(wn, dt, w, y0, target, n - 1);
      DimensionlessStep(wn, dt, w, DampedRun(wn, dt, y0, target, n - 1), target);
    }
  }

  /** The invariant cone for a non-negative error to a constant target. */
  ghost predicate Cone(w: real, e: real, u: real) {
    && u >= 0.0
    && Clear(w, e, u)
    && (2.0 * w > 1.0 ==> (1.0 - w * w) * u <= w * w * e)
  }

  /** The stability bound. */
  predicate Tame(w: real) { w > 0.0 && w * w + 2.0 * w <= 2.0 }

  lemma TameIsBelowOne(w: real)
    requires Tame(w)
    ensures w < 1.0 && 0.0 < w * w < 1.0
  {
    if w >= 1.0 { ProductNonNegative(w - 1.0, w); }
    ProductNonNegative(w, 1.0 - w);
    ProductNonNegative(w, w);
    if w * w <= 0.0 { ProductPositive(w, w); }
  }

  /** One step stays in the cone, and the error shrinks without changing sign. */
  lemma ConeStep(w: real, e: real, u: real)
    requires Tame(w) && Cone(w, e, u)
    ensures var v := NextU(w, e, u); Cone(w, e - v, v)
  {
    TameIsBelowOne(w);
    ClearStep(w, e, u, 0.0);
    if 2.0 * w <= 1.0 {
      ProductNonNegative(w * w, e);
      ProductNonNegative(1.0 - 2.0 * w, u);
    } else {
      FastConeStep(w, e, u);
    }
  }

  /** A bound at distance e, approached at displacement u, that the filter will not pass. */
  ghost predicate Clear(w: real, e: real, u: real) {
    e >= 0.0 && if 2.0 * w <= 1.0 then u <= w * e else 0.0 <= e + u
  }

  /** A bound stays clear for any target on its near side, here d short of it. */
  lemma ClearStep(w: real, e: real, u: real, d: real)
    requires Tame(w) && Clear(w, e, u) && d >= 0.0
    ensures var v := NextU(w, e - d, u); Clear(w, e - v, v)
  {
    TameIsBelowOne(w);
    ProductNonNegative(w * w, d);
    if 2.0 * w <= 1.0 { SlowClearStep(w, e, u, d); } else { FastClearStep(w, e, u, d); }
  }

  lemma SlowClearStep(w: real, e: real, u: real, d: real)
    requires 0.0 < w && 2.0 * w <= 1.0 && e >= 0.0 && u <= w * e && w * w * d >= 0.0
    ensures var v := NextU(w, e - d, u); v <= w * (e - v) && e - v >= 0.0
  {
    var v, p := NextU(w, e - d, u), w * e;
    ProductNonNegative(1.0 - 2.0 * w, p - u);
    assert (1.0 - 2.0 * w) * p == p - 2.0 * (w * p);
    assert w * w * (e - d) == w * p - w * w * d;
    assert v <= p - w * p;
    SlowShrink(w, p, v);
    ProductNonNegative(w, e);
    ProductNonNegative(1.0 - w, e);
    ProductNonNegative(w, p);
  }

  lemma SlowShrink(w: real, p: real, v: real)
    requires 0.0 < w && p >= 0.0 && v <= p - w * p
    ensures v + w * v <= p
  {
    ProductNonNegative(w, p - w * p - v);
    ProductNonNegative(w * w, p);
    assert w * (p - w * p - v) == w * p - w * w * p - w * v;
  }

  lemma FastClearStep(w: real, e: real, u: real, d: real)
    requires Tame(w) && 2.0 * w > 1.0 && e >= 0.0 && 0.0 <= e + u && w * w * d >= 0.0
    ensures NextU(w, e - d, u) <= e
  {
    var q, k := w * w, 2.0 * w - 1.0;
    ProductNonNegative(1.0 - q - k, e);
    ProductNonNegative(k, e + u);
    assert (1.0 - q - k) * e + k * (e + u) + q * d == e - NextU(w, e - d, u) by {
      assert NextU(w, e - d, u) == q * e - q * d - k * u;
      assert (1.0 - q - k) * e == e - q * e - k * e;
      assert k * (e + u) == k * e + k * u;
    }
  }

  lemma FastConeStep(w: real, e: real, u: real)
    requires 0.0 < w < 1.0 && 2.0 * w > 1.0 && w * w + 2.0 * w <= 2.0 && e >= 0.0 && u >= 0.0
    requires (1.0 - w * w) * u <= w * w * e
    ensures var v := NextU(w, e, u); 0.0 <= v && (1.0 - w * w) * v <= w * w * (e - v) && e - v >= 0.0
  {
    var v, k, q := NextU(w, e, u), 2.0 * w - 1.0, w * w;
    ProductNonNegative(1.0 - q - k, u);
    assert (1.0 - q - k) * u == (1.0 - q) * u - k * u;
    assert v == q * e - k * u;
    ProductNonNegative(k, u);
    ProductNonNegative(1.0 - q, e);
    assert (1.0 - q) * e == e - q * e;
    assert (1.0 - q) * v == v - q * v;
    assert q * (e - v) == q * e - q * v;
  }

  lemma {:induction false} RunStaysInCone(w: real, e0: real, n: nat)
    requires Tame(w) && e0 >= 0.0
    ensures Cone(w, Run(w, e0, n).0, Run(w, e0, n).1)
  {
    if n == 0 {
      TameIsBelowOne(w);
      ProductNonNegative(w, e0);
      ProductNonNegative(w * w, e0);
    } else {
      RunStaysInCone(w, e0, n - 1);
      ConeStep(w, Run(w, e0, n - 1).0, Run(w, e0, n - 1).1);
    }
  }

  lemma {:induction false} RunIsOdd(w: real, e0: real, f0: real, n: nat)
    requires f0 == -e0
    ensures Run(w, f0, n).0 == -Run(w, e0, n).0 && Run(w, f0, n).1 == -Run(w, e0, n).1
  {
    if n > 0 {
      RunIsOdd(w, e0, f0, n - 1);
      NextIsOdd(w, Run(w, e0, n - 1).0, Run(w, f0, n - 1).0, Run(w, e0, n - 1).1, Run(w, f0, n - 1).1);
    }
  }

  lemma NextIsOdd(w: real, e: real, f: real, u: real, v: real)
    requires f == -e && v == -u
    ensures NextU(w, f, v) == -NextU(w, e, u)
  {
  }

  /** An error f on the same side of the target as e. */
  predicate SameSide(e: real, f: real) { (e > 0.0 ==> f >= 0.0) && (e < 0.0 ==> f <= 0.0) }

  /** Exactly when the filter does not overshoot: started at rest away from a constant target, its
      error keeps its sign, over any number of steps, if and only if w = wn * dt satisfies
      w^2 + 2w <= 2. */
  lemma NoOvershootIsExact(wn: real, dt: real, y0: real, target: real)
    requires wn * dt > 0.0 && y0 != target
    ensures Tame(wn * dt) <==> forall n: nat :: SameSide(target - y0, Error(wn, dt, y0, target, n))
  {
    var w, e0 := wn * dt, target - y0;
    if Tame(w) {
      forall n: nat ensures SameSide(e0, Error(wn, dt, y0, target, n)) {
        RunIsDimensionless(wn, dt, w, y0, target, n);
        var a := if e0 >= 0.0 then e0 else -e0;
        RunStaysInCone(w, a, n);
        if e0 < 0.0 { RunIsOdd(w, e0, a, n); }
      }
    } else {
      var n := WildCrosses(w, e0);
      RunIsDimensionless(wn, dt, w, y0, target, n);
      assert !SameSide(e0, Error(wn, dt, y0, target, n));
    }
  }

  /** The error keeps its sign and its magnitude does not grow from e to f. */
  predicate Calms(e: real, f: real) {
    0.0 <= f <= e || e <= f <= 0.0
  }

  /** Under the same condition, and no other, every step also leaves the error no larger. */
  lemma CalmIsExact(wn: real, dt: real, y0: real, target: real)
    requires wn * dt > 0.0 && y0 != target
    ensures Tame(wn * dt) <==> forall n: nat :: Calms(Error(wn, dt, y0, target, n), Error(wn, dt, y0, target, n + 1))
  {
    var w, e0 := wn * dt, target - y0;
    if Tame(w) {
      forall n: nat ensures Calms(Error(wn, dt, y0, target, n), Error(wn, dt, y0, target, n + 1)) {
        RunIsDimensionless(wn, dt, w, y0, target, n);
        RunIsDimensionless(wn, dt, w, y0, target, n + 1);
        var a := if e0 >= 0.0 then e0 else -e0;
        RunStaysInCone(w, a, n);
        RunStaysInCone(w, a, n + 1);
        ConeCalms(w, Run(w, a, n), Run(w, a, n + 1));
        if e0 < 0.0 {
          RunIsOdd(w, e0, a, n);
          RunIsOdd(w, e0, a, n + 1);
        }
      }
    }
    if forall n: nat :: Calms(Error(wn, dt, y0, target, n), Error(wn, dt, y0, target, n + 1)) {
      forall n: nat ensures SameSide(e0, Error(wn, dt, y0, target, n)) { CalmKeepsSide(wn, dt, y0, target, n); }
      NoOvershootIsExact(wn, dt, y0, target);
    }
  }

  lemma {:induction false} CalmKeepsSide(wn: real, dt: real, y0: real, target: real, n: nat)
    requires forall k: nat :: Calms(Error(wn, dt, y0, target, k), Error(wn, dt, y0, target, k + 1))
    ensures SameSide(target - y0, Error(wn, dt, y0, target, n))
  {
    if n > 0 {
      CalmKeepsSide(wn, dt, y0, target, n - 1);
      assert Calms(Error(wn, dt, y0, target, n - 1), Error(wn, dt, y0, target, n - 1 + 1));
    }
  }

  lemma ConeCalms(w: real, p: (real, real), q: (real, real))
    requires Cone(w, p.0, p.1) && Cone(w, q.0, q.1) && q.0 == p.0 - q.1
    ensures Calms(p.0, q.0) && Calms(-p.0, -q.0)
  {
  }

  // ---- Past the bound the error crosses the target ----

  function Power(b: real, n: nat): real { if n == 0 then 1.0 else b * Power(b, n - 1) }

  lemma {:induction false} PowerPositive(b: real, n: nat)
    requires b > 0.0
    ensures Power(b, n) > 0.0
  {
    if n > 0 {
      PowerPositive(b, n - 1);
      ProductPositive(b, Power(b, n - 1));
    }
  }

  /** Weight of the error before last, and of the last error, in the next one. */
  function Carry(w: real): real { 2.0 * w - 1.0 }

  function Excess(w: real): real { w * w + 2.0 * w - 2.0 }

  lemma WildWeights(w: real)
    requires w > 0.0 && !Tame(w)
    ensures Excess(w) > 0.0 && Carry(w) > 0.0
  {
    if 2.0 * w <= 1.0 { ProductNonNegative(w, 1.0 - 2.0 * w); }
  }

  ghost predicate RecursAt(es: nat -> real, s: real, m: real, n: nat) { es(n + 2) == m * es(n) - s * es(n + 1) }

  /** The two-term recurrence that the errors of a run obey. */
  ghost predicate Recurs(es: nat -> real, s: real, m: real) { forall n: nat :: RecursAt(es, s, m, n) }

  ghost function Errors(ps: nat -> (real, real)): nat -> real { (n: nat) => ps(n).0 }

  ghost function Pairs(w: real, e0: real): nat -> (real, real) { (n: nat) => Run(w, e0, n) }

  ghost predicate StepAt(ps: nat -> (real, real), w: real, n: nat) {
    ps(n + 1) == (ps(n).0 - NextU(w, ps(n).0, ps(n).1), NextU(w, ps(n).0, ps(n).1))
  }

  lemma ErrorsRecur(ps: nat -> (real, real), w: real)
    requires forall n: nat :: StepAt(ps, w, n)
    ensures Recurs(Errors(ps), Excess(w), Carry(w))
  {
    forall n: nat ensures RecursAt(Errors(ps), Excess(w), Carry(w), n) {
      assert StepAt(ps, w, n) && StepAt(ps, w, n + 1);
      TwoRunSteps(w, ps(n).0, ps(n).1, ps(n + 1).0, ps(n + 1).1, ps(n + 2).0);
    }
  }

  lemma TwoRunSteps(w: real, e: real, u: real, e1: real, u1: real, e2: real)
    requires u1 == NextU(w, e, u) && e1 == e - u1 && e2 == e1 - NextU(w, e1, u1)
    ensures e2 == Carry(w) * e - Excess(w) * e1
  {
    assert (1.0 - 2.0 * w) * u1 == (1.0 - 2.0 * w) * e - (1.0 - 2.0 * w) * e1;
  }

  /** The quadratic form that one step of the recurrence multiplies by -m. */
  function Form(s: real, m: real, a: real, b: real): real { b * b + s * a * b - m * (a * a) }

  lemma FormStep(s: real, m: real, a: real, b: real, c: real)
    requires c == m * a - s * b
    ensures Form(s, m, b, c) == -(m * Form(s, m, a, b))
  {
    var p, q, r := a * a, a * b, b * b;
    assert c * (c + s * b) == c * (m * a);
    assert c * (m * a) == m * (m * p - s * q) by {
      assert c * a == m * p - s * q;
    }
    assert Form(s, m, b, c) == c * (c + s * b) - m * r;
    assert Form(s, m, a, b) == r + s * q - m * p;
    assert m * (m * p - s * q) - m * r == -(m * (r + s * q - m * p));
  }

  /** Entries n and n + 1 lie on the curve of scale z. */
  ghost predicate OnCurve(es: nat -> real, s: real, m: real, n: nat, z: real) {
    Form(s, m, es(n), es(n + 1)) == -(m * (z * z))
  }

  lemma {:induction false} StaysOnCurve(es: nat -> real, s: real, m: real, z: real, j: nat)
    requires Recurs(es, s, m) && OnCurve(es, s, m, 0, z)
    ensures OnCurve(es, s, m, 2 * j, Power(m, j) * z)
  {
    if j > 0 {
      StaysOnCurve(es, s, m, z, j - 1);
      TwoSteps(es, s, m, 2 * j - 2, Power(m, j - 1) * z);
      assert m * (Power(m, j - 1) * z) == Power(m, j) * z;
    }
  }

  lemma TwoSteps(es: nat -> real, s: real, m: real, n: nat, z: real)
    requires Recurs(es, s, m) && OnCurve(es, s, m, n, z)
    ensures OnCurve(es, s, m, n + 2, m * z)
  {
    var a, b, c, d := es(n), es(n + 1), es(n + 2), es(n + 3);
    assert RecursAt(es, s, m, n) && RecursAt(es, s, m, n + 1);
    FormStep(s, m, a, b, c);
    FormStep(s, m, b, c, d);
    TwiceScaled(m, z, Form(s, m, a, b), Form(s, m, b, c), Form(s, m, c, d));
  }

  lemma CurveAtStart(w: real, e0: real)
    ensures OnCurve(Errors(Pairs(w, e0)), Excess(w), Carry(w), 0, w * e0)
  {
    var q := w * w;
    assert Run(w, e0, 0) == (e0, 0.0);
    assert Run(w, e0, 1).0 == e0 - q * e0;
    StartForm(w, q, e0);
  }

  lemma StartForm(w: real, q: real, e0: real)
    requires q == w * w
    ensures Form(Excess(w), Carry(w), e0, e0 - q * e0) == -(Carry(w) * ((w * e0) * (w * e0)))
  {
    var p, b := e0 * e0, e0 - q * e0;
    assert b * b == (1.0 - q) * (1.0 - q) * p;
    assert Excess(w) * e0 * b == (q + 2.0 * w - 2.0) * (1.0 - q) * p;
    assert (1.0 - q) * (1.0 - q) + (q + 2.0 * w - 2.0) * (1.0 - q) == (1.0 - q) * Carry(w);
    assert (w * e0) * (w * e0) == q * p;
  }

  lemma TwiceScaled(m: real, z: real, f0: real, f1: real, f2: real)
    requires f0 == -(m * (z * z)) && f1 == -(m * f0) && f2 == -(m * f1)
    ensures f2 == -(m * ((m * z) * (m * z)))
  {
    assert (m * z) * (m * z) == m * (m * (z * z));
  }

  /** Non-negative neighbours keep the earlier error at or above the scale. */
  lemma AtLeastScale(s: real, m: real, a: real, b: real, z: real)
    requires s > 0.0 && m > 0.0 && a >= 0.0 && b >= 0.0 && z >= 0.0
    requires Form(s, m, a, b) == -(m * (z * z))
    ensures a >= z
  {
    ProductNonNegative(b, b);
    ProductNonNegative(a, b);
    ProductNonNegative(s, a * b);
    if a < z {
      ProductNonNegative(z - a, a);
      ProductPositive(z - a, z);
      assert z * z - a * a == (z - a) * z + (z - a) * a;
      ProductPositive(m, z * z - a * a);
    }
  }

  /** While no entry is negative, the odd ones fall by a fixed part of the scale every round. */
  lemma {:induction false} OddEntriesFall(es: nat -> real, s: real, m: real, z: real, j: nat)
    requires s > 0.0 && m > 0.0 && z > 0.0 && Recurs(es, s, m) && OnCurve(es, s, m, 0, z)
    requires forall n: nat :: n <= 2 * j + 1 ==> es(n) >= 0.0
    ensures es(2 * j + 1) <= Power(m, j) * (es(1) - j as real * (s * z))
  {
    if j > 0 {
      OddEntriesFall(es, s, m, z, j - 1);
      var p := Power(m, j - 1);
      var b, c, d := es(2 * j - 1), es(2 * j), es(2 * j + 1);
      assert RecursAt(es, s, m, 2 * j - 1);
      StaysOnCurve(es, s, m, z, j);
      PowerPositive(m, j);
      ProductPositive(Power(m, j), z);
      AtLeastScale(s, m, c, d, Power(m, j) * z);
      OneRound(s, m, p, z, es(1), (j - 1) as real, b, c, d);
    }
  }

  lemma OneRound(s: real, m: real, p: real, x: real, b0: real, k: real, b: real, c: real, d: real)
    requires s > 0.0 && m > 0.0 && b <= p * (b0 - k * (s * x)) && c >= (m * p) * x && d == m * b - s * c
    ensures d <= (m * p) * (b0 - (k + 1.0) * (s * x))
  {
    var v, g := b0 - k * (s * x), s * x;
    ProductNonNegative(m, p * v - b);
    ProductNonNegative(s, c - (m * p) * x);
    assert m * (p * v) == (m * p) * v;
    assert s * ((m * p) * x) == (m * p) * g;
    assert (m * p) * (v - g) == (m * p) * v - (m * p) * g;
    assert (k + 1.0) * g == k * g + g;
  }

  /** So some entry is negative. */
  lemma SomeNegative(es: nat -> real, s: real, m: real, z: real) returns (n: nat)
    requires s > 0.0 && m > 0.0 && z > 0.0 && Recurs(es, s, m) && OnCurve(es, s, m, 0, z)
    ensures es(n) < 0.0
  {
    ProductPositive(s, z);
    var j := Rounds(es(1), s * z);
    if forall k: nat :: k <= 2 * j + 1 ==> es(k) >= 0.0 {
      PowerPositive(m, j);
      ProductPositive(Power(m, j), j as real * (s * z) - es(1));
      Opposite(Power(m, j), j as real * (s * z), es(1));
      OddEntriesFall(es, s, m, z, j);
      assert false;
    }
    n :| n <= 2 * j + 1 && es(n) < 0.0;
  }

  lemma Opposite(p: real, x: real, y: real)
    ensures p * (y - x) == -(p * (x - y))
  {
  }

  lemma Rounds(b: real, g: real) returns (j: nat)
    requires g > 0.0
    ensures j as real * g > b
  {
    if b < 0.0 {
      j := 0;
    } else {
      var r := b / g;
      assert r * g == b;
      if r < 0.0 { ProductPositive(-r, g); }
      j := r.Floor + 1;
      ProductPositive(j as real - r, g);
      assert (j as real - r) * g == j as real * g - r * g;
    }
  }

  lemma WildCrossesDown(w: real, e0: real) returns (n: nat)
    requires w > 0.0 && !Tame(w) && e0 > 0.0
    ensures Run(w, e0, n).0 < 0.0
  {
    WildWeights(w);
    ProductPositive(w, e0);
    forall k: nat ensures StepAt(Pairs(w, e0), w, k) { }
    ErrorsRecur(Pairs(w, e0), w);
    CurveAtStart(w, e0);
    n := SomeNegative(Errors(Pairs(w, e0)), Excess(w), Carry(w), w * e0);
  }

  lemma WildCrosses(w: real, e0: real) returns (n: nat)
    requires w > 0.0 && !Tame(w) && e0 != 0.0
    ensures !SameSide(e0, Run(w, e0, n).0)
  {
    if e0 > 0.0 {
      n := WildCrossesDown(w, e0);
    } else {
      n := WildCrossesDown(w, -e0);
      RunIsOdd(w, e0, -e0, n);
    }
  }

  /** The filter's positions on a sequence of targets, from rest at y0. */
  function Tracked(wn: real, dt: real, y0: real, targets: seq<real>): Damped {
    if targets == [] then Damped(y0, 0.0)
    else DampedStep(wn, dt, Tracked(wn, dt, y0, targets[..|targets| - 1]), targets[|targets| - 1])
  }

  ghost predicate Within(lo: real, hi: real, xs: seq<real>) {
    forall i :: 0 <= i < |xs| ==> lo <= xs[i] <= hi
  }

  /** The filter state that cannot leave [lo, hi] while its targets are inside. */
  ghost predicate Railed(wn: real, dt: real, lo: real, hi: real, s: Damped) {
    Clear(wn * dt, hi - s.y, Displacement(s, dt)) && Clear(wn * dt, s.y - lo, -Displacement(s, dt))
  }

  lemma RestIsRailed(wn: real, dt: real, lo: real, hi: real, y: real)
    requires Tame(wn * dt) && lo <= y <= hi
    ensures Railed(wn, dt, lo, hi, Damped(y, 0.0))
  {
    var w := wn * dt;
    ProductNonNegative(w, hi - y);
    ProductNonNegative(w, y - lo);
    assert Displacement(Damped(y, 0.0), dt) == 0.0;
  }

  lemma RailedStep(wn: real, dt: real, lo: real, hi: real, s: Damped, target: real)
    requires Tame(wn * dt) && Railed(wn, dt, lo, hi, s) && lo <= target <= hi
    ensures Railed(wn, dt, lo, hi, DampedStep(wn, dt, s, target))
    ensures lo <= DampedStep(wn, dt, s, target).y <= hi
  {
    var w, u := wn * dt, Displacement(s, dt);
    DimensionlessStep(wn, dt, w, s, target);
    assert hi - s.y - (hi - target) == target - s.y;
    BothClear(w, hi - s.y, s.y - lo, u, hi - target, target - lo, NextU(w, target - s.y, u));
  }

  /** Two bounds on either side, at distances e and f, stay clear together. */
  lemma BothClear(w: real, e: real, f: real, u: real, d: real, g: real, v: real)
    requires Tame(w) && Clear(w, e, u) && Clear(w, f, -u) && d >= 0.0 && g >= 0.0
    requires f - g == -(e - d) && v == NextU(w, e - d, u)
    ensures Clear(w, e - v, v) && Clear(w, f + v, -v)
  {
    ClearStep(w, e, u, d);
    ClearStep(w, f, -u, g);
    NextIsOdd(w, e - d, f - g, u, -u);
  }

  lemma {:induction false} TrackedIsRailed(wn: real, dt: real, lo: real, hi: real, y0: real, targets: seq<real>)
    requires Tame(wn * dt) && lo <= y0 <= hi && Within(lo, hi, targets)
    ensures Railed(wn, dt, lo, hi, Tracked(wn, dt, y0, targets))
  {
    if targets == [] {
      RestIsRailed(wn, dt, lo, hi, y0);
    } else {
      TrackedIsRailed(wn, dt, lo, hi, y0, targets[..|targets| - 1]);
      RailedStep(wn, dt, lo, hi, Tracked(wn, dt, y0, targets[..|targets| - 1]), targets[|targets| - 1]);
    }
  }

  /** The same bound is exact for moving targets: from rest inside an interval of any width, the
      filter stays inside it for every sequence of targets inside, if and only if w^2 + 2w <= 2. */
  lemma ContainmentIsExact(wn: real, dt: real, lo: real, hi: real)
    requires wn * dt > 0.0 && lo < hi
    ensures Tame(wn * dt) <==>
            forall y0: real, ts: seq<real> :: lo <= y0 <= hi && Within(lo, hi, ts) ==> lo <= Tracked(wn, dt, y0, ts).y <= hi
  {
    if Tame(wn * dt) {
      forall y0: real, ts: seq<real> | lo <= y0 <= hi && Within(lo, hi, ts)
        ensures lo <= Tracked(wn, dt, y0, ts).y <= hi
      {
        TrackedIsRailed(wn, dt, lo, hi, y0, ts);
      }
    } else {
      DipOvershoots(wn, dt, lo, hi);
      assert Within(lo, hi, [lo, hi]);
    }
  }

  /** Past the bound, a one-step dip of the target throws the filter over the top. */
  lemma DipOvershoots(wn: real, dt: real, lo: real, hi: real)
    requires wn * dt > 0.0 && lo < hi && !Tame(wn * dt)
    ensures Tracked(wn, dt, hi, [lo, hi]).y > hi
  {
    var s0 := Damped(hi, 0.0);
    var s1 := DampedStep(wn, dt, s0, lo);
    assert [lo, hi][..1] == [lo] && [lo][..0] == [];
    assert Tracked(wn, dt, hi, []) == s0;
    assert Tracked(wn, dt, hi, [lo]) == s1;
    assert Tracked(wn, dt, hi, [lo, hi]) == DampedStep(wn, dt, s1, hi);
    Dip(wn, dt, wn * dt, lo, hi);
  }

  lemma Dip(wn: real, dt: real, w: real, lo: real, hi: real)
    requires w == wn * dt && w > 0.0 && lo < hi && !Tame(w)
    ensures DampedStep(wn, dt, DampedStep(wn, dt, Damped(hi, 0.0), lo), hi).y > hi
  {
    var p := w * w * (hi - lo);
    DipValues(wn, dt, w, hi, lo, p);
    ProductPositive(w, w);
    ProductPositive(w * w, hi - lo);
    ProductPositive(Excess(w), p);
  }

  /** A one-step dip from rest, to lo and back to hi, takes the filter down by p and back up past hi
      by the excess of p. */
  lemma DipValues(wn: real, dt: real, w: real, hi: real, lo: real, p: real)
    requires w == wn * dt && p == w * w * (hi - lo)
    ensures var s1 := DampedStep(wn, dt, Damped(hi, 0.0), lo);
            s1.y == hi - p && DampedStep(wn, dt, s1, hi).y == hi + Excess(w) * p
  {
    var s0 := Damped(hi, 0.0);
    assert Displacement(s0, dt) == 0.0;
    DimensionlessStep(wn, dt, w, s0, lo);
    Recoil(w, hi - lo, lo - hi);
    var s1 := DampedStep(wn, dt, s0, lo);
    assert Displacement(s1, dt) == -p && hi - s1.y == p;
    DimensionlessStep(wn, dt, w, s1, hi);
    Bounce(w, p, Excess(w));
  }

  lemma Recoil(w: real, d: real, e: real)
    requires e == -d
    ensures NextU(w, e, 0.0) == -(w * w * d)
  {
  }

  lemma Bounce(w: real, p: real, a: real)
    requires a == w * w + 2.0 * w - 2.0
    ensures NextU(w, p, -p) == p + a * p
  {
  }

  // ---- The filter objects ----

  class EwmaFilter {
    const tau: real
    const dt: real
    var y: Option<seq<real>>

    constructor (tau: real, dt: real)
      requires tau > 0.0 ==> dt >= 0.0
      ensures this.tau == tau && this.dt == dt && y == None
    {
      this.tau, this.dt, y := tau, dt, None;
    }

    method Reset(y0: seq<real>)
      modifies this
      ensures y == Some(y0)
    {
      y := Some(y0);
    }

    /** Without a reset the first target is taken as the state and comes back unchanged. */
    method Step(target: seq<real>) returns (out: seq<real>)
      requires tau > 0.0 ==> dt >= 0.0
      requires y.Some? ==> |y.value| == |target|
      modifies this
      ensures y == Some(out) && |out| == |target|
      ensures old(y).None? ==> out == target
      ensures old(y).Some? ==> forall i :: 0 <= i < |out| ==> out[i] == Mix(old(y).value[i], target[i], Alpha(tau, dt))
    {
      if y.None? { y := Some(target); }
      var was, a := y.value, Alpha(tau, dt);
      out := seq(|target|, i requires 0 <= i < |target| => Mix(was[i], target[i], a));
      y := Some(out);
      assert forall i :: 0 <= i < |out| ==> was == target ==> out[i] == target[i];
    }
  }

  class CriticallyDampedFilter {
    const wn: real
    const dt: real
    var y: Option<seq<real>>
    var yd: seq<real>

    ghost predicate Valid() reads this { y.Some? ==> |y.value| == |yd| }

    ghost function Joint(i: nat): Damped
      reads this
      requires Valid() && y.Some? && i < |yd|
    {
      Damped(y.value[i], yd[i])
    }

    constructor (wn: real, dt: real)
      ensures Valid() && this.wn == wn && this.dt == dt && y == None
    {
      this.wn, this.dt, y, yd := wn, dt, None, [];
    }

    method Reset(y0: seq<real>)
      modifies this
      ensures Valid() && y == Some(y0)
      ensures forall i :: 0 <= i < |y0| ==> Joint(i) == Damped(y0[i], 0.0)
    {
      y, yd := Some(y0), seq(|y0|, _ => 0.0);
    }

    /** Velocity first, then position. Without a reset the filter starts at rest on the target. */
    method Step(target: seq<real>) returns (out: seq<real>)
      requires Valid() && (y.Some? ==> |y.value| == |target|)
      modifies this
      ensures Valid() && y == Some(out) && |out| == |target|
      ensures old(y).None? ==> out == target
      ensures old(y).Some? ==> forall i :: 0 <= i < |out| ==> Joint(i) == DampedStep(wn, dt, old(Joint(i)), target[i])
    {
      if y.None? { Reset(target); }
      var n, was, wasD := |target|, y.value, yd;
      var accel := seq(n, i requires 0 <= i < n => wn * wn * (target[i] - was[i]) - 2.0 * wn * wasD[i]);
      yd := seq(n, i requires 0 <= i < n => wasD[i] + accel[i] * dt);
      var d := yd;
      out := seq(n, i requires 0 <= i < n => was[i] + d[i] * dt);
      y := Some(out);
    }
  }
}
