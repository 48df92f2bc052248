/** The smoothing stack on the way from policy output to motor command: start-up blend, running
    filter and per-tick clamp, released after a configured time. */
module JointSmoothers {
  import opened Wrappers
  import opened JointFilters
  import opened Reals

  function Clamp01(x: real): real { if x < 0.0 then 0.0 else if x > 1.0 then 1.0 else x }

  function Cubic(a: real): real { a * a * (3.0 - 2.0 * a) }

  function Smoothstep(alpha: real): real { Cubic(Clamp01(alpha)) }

  /** The easing curve is a weight: it starts at 0, ends at 1 and is symmetric about the middle. */
  lemma SmoothstepIsAnEasing(alpha: real)
    ensures 0.0 <= Smoothstep(alpha) <= 1.0
    ensures alpha <= 0.0 ==> Smoothstep(alpha) == 0.0
    ensures alpha >= 1.0 ==> Smoothstep(alpha) == 1.0
    ensures Smoothstep(1.0 - alpha) == 1.0 - Smoothstep(alpha)
  {
    var a := Clamp01(alpha);
    var b := 1.0 - a;
    assert Clamp01(1.0 - alpha) == b;
    ProductNonNegative(a * a, 3.0 - 2.0 * a);
    ProductNonNegative(b * b, 3.0 - 2.0 * b);
    assert a * a * (3.0 - 2.0 * a) == 3.0 * (a * a) - 2.0 * (a * a * a);
    assert b * b == 1.0 - 2.0 * a + a * a;
    assert b * b * (3.0 - 2.0 * b) == (1.0 - 2.0 * a + a * a) * (1.0 + 2.0 * a);
  }

  function BlendPose(start: real, target: real, alpha: real): real { Mix(start, target, Smoothstep(alpha)) }

  function ClampStepDelta(prev: real, desired: real, maxDelta: real): real {
    if maxDelta <= 0.0 then desired
    else
      var d := desired - prev;
      prev + (if d < -maxDelta then -maxDelta else if d > maxDelta then maxDelta else d)
  }

  /** How the curve rises between two of its points. */
  lemma EasingRise(a: real, b: real)
    requires 0.0 <= a <= b <= 1.0
    ensures Smoothstep(b) - Smoothstep(a) == (b - a) * (3.0 * (a + b) - 2.0 * (a * a + a * b + b * b))
    ensures Smoothstep(a) <= Smoothstep(b)
    ensures Smoothstep(b) <= 3.0 * (b * b)
  {
    var g := 3.0 * (a + b) - 2.0 * (a * a + a * b + b * b);
    assert Cubic(a) == 3.0 * (a * a) - 2.0 * (a * a * a) && Cubic(b) == 3.0 * (b * b) - 2.0 * (b * b * b);
    Expand(a, b);
    RiseIsUp(a, b);
    ProductNonNegative(b - a, g);
    ProductNonNegative(b, b);
    ProductNonNegative(b * b, b);
  }

  lemma Expand(a: real, b: real)
    ensures (b - a) * (3.0 * (a + b) - 2.0 * (a * a + a * b + b * b)) ==
            (3.0 * (b * b) - 2.0 * (b * b * b)) - (3.0 * (a * a) - 2.0 * (a * a * a))
  {
  }

  lemma RiseIsUp(a: real, b: real)
    requires 0.0 <= a <= 1.0 && 0.0 <= b <= 1.0
    ensures 3.0 * (a + b) - 2.0 * (a * a + a * b + b * b) >= 0.0
  {
    ProductNonNegative(a, 1.0 - a);
    ProductNonNegative(b, 1.0 - b);
    ProductNonNegative(a, 1.0 - b);
    ProductNonNegative(b, 1.0 - a);
  }

  datatype Kind = NoFilter | Ewma(tau: real) | CritDamp(wn: real)

  datatype Settings = Settings(dt: real, blendS: real, clampDelta: real, kind: Kind, releaseS: real, releaseRampS: real)

  /** The weight divides by tau + dt; with a positive tau a non-negative period keeps it non-zero. */
  predicate Usable(c: Settings) { c.kind.Ewma? && c.kind.tau > 0.0 ==> c.dt >= 0.0 }

  function ReleaseFactor(c: Settings, t: real): real {
    if c.releaseS <= 0.0 || t < c.releaseS then 0.0
    else if c.releaseRampS <= 0.0 then 1.0
    else Smoothstep((t - c.releaseS) / c.releaseRampS)
  }

  predicate Blending(c: Settings, t: real) { c.blendS > 0.0 && t < c.blendS }

  // ---- One joint ----

  datatype Joint = Joint(measured: real, prev: real, filter: Damped)

  function StartJoint(q: real): Joint { Joint(q, q, Damped(q, 0.0)) }

  function FilterStep(c: Settings, f: Damped, target: real): Damped
    requires Usable(c)
  {
    match c.kind
    case NoFilter => f
    case Ewma(tau) => Damped(Mix(f.y, target, Alpha(tau, c.dt)), f.yd)
    case CritDamp(wn) => DampedStep(wn, c.dt, f, target)
  }

  function Blended(c: Settings, t: real, measured: real, raw: real): real {
    if Blending(c, t) then BlendPose(measured, raw, t / c.blendS) else raw
  }

  /** Fades a limited value out toward the unlimited one. */
  function Faded(limited: real, free: real, r: real): real {
    if r <= 0.0 then limited else Mix(limited, free, r)
  }

  /** The joint after one tick; its prev field is the command sent. */
  function StepJoint(c: Settings, t: real, j: Joint, raw: real): Joint
    requires Usable(c)
  {
    var target, r := Blended(c, t, j.measured, raw), ReleaseFactor(c, t);
    if r >= 1.0 then j.(prev := target)
    else
      var f := FilterStep(c, j.filter, target);
      var filtered := if c.kind.NoFilter? then target else Faded(f.y, target, r);
      var clamped := ClampStepDelta(j.prev, filtered, c.clampDelta);
      Joint(j.measured, Faded(clamped, filtered, r), f)
  }

  // ---- The layers of a tick, one by one ----

  /** z goes from a to b by the share s of the way. */
  predicate Shared(a: real, b: real, s: real, z: real) { z - a == s * (b - a) }

  /** z moves from prev toward the goal by the gap, or by the clamp if that is less; no clamp, no limit. */
  predicate Clamps(prev: real, goal: real, most: real, z: real) {
    var gap := goal - prev;
    if most <= 0.0 || -most <= gap <= most then z == goal
    else if gap > most then z == prev + most
    else z == prev - most
  }

  predicate IsPart(a: real, length: real, t: real) { a * length == t }

  /** s is the eased fraction of the way of t through a stretch of the given length. */
  ghost predicate Eased(t: real, length: real, s: real) {
    exists a :: IsPart(a, length, t) && s == Smoothstep(a)
  }

  lemma EasedIs(t: real, length: real, s: real)
    requires length > 0.0
    ensures Eased(t, length, s) <==> s == Smoothstep(t / length)
  {
    var a := t / length;
    assert IsPart(a, length, t);
    forall b | IsPart(b, length, t) ensures b == a {
      if b < a { ProductPositive(a - b, length); }
      if a < b { ProductPositive(b - a, length); }
    }
  }

  /** What is released: nothing before the release time, all of it after the ramp, and an eased share between. */
  ghost predicate Released(c: Settings, t: real, r: real) {
    if c.releaseS <= 0.0 || t < c.releaseS then r == 0.0
    else if c.releaseRampS <= 0.0 || t >= c.releaseS + c.releaseRampS then r == 1.0
    else Eased(t - c.releaseS, c.releaseRampS, r)
  }

  /** The blended target: an eased share of the way from the posture to the raw target, then the raw target. */
  ghost predicate Blends(c: Settings, t: real, measured: real, raw: real, target: real) {
    if c.blendS > 0.0 && t < c.blendS then exists s :: Eased(t, c.blendS, s) && Shared(measured, raw, s, target)
    else target == raw
  }

  /** The filter's own step, by kind. */
  ghost predicate Filters(c: Settings, was: Damped, target: real, now: Damped) {
    match c.kind
    case NoFilter => now == was
    case Ewma(tau) =>
      && now.yd == was.yd
      && if tau > 0.0 then (tau + c.dt) * (now.y - was.y) == c.dt * (target - was.y) else now.y == target
    case CritDamp(wn) =>
      && now.yd - was.yd == (wn * wn * (target - was.y) - 2.0 * wn * was.yd) * c.dt
      && now.y - was.y == now.yd * c.dt
  }

  /** One tick, layer by layer. Released, the target passes and the rest stands still. Otherwise the filter
      steps toward the target, its output is faded toward the target by the released share, and the clamped
      step toward that is faded toward it likewise. */
  lemma TickByLayers(c: Settings, t: real, j: Joint, raw: real) returns (target: real, r: real, filtered: real, clamped: real)
    requires Usable(c)
    ensures Blends(c, t, j.measured, raw, target) && Released(c, t, r) && 0.0 <= r <= 1.0
    ensures var next := StepJoint(c, t, j, raw);
            if r == 1.0 then next == j.(prev := target)
            else
              && next.measured == j.measured
              && Filters(c, j.filter, target, next.filter)
              && (if c.kind.NoFilter? then filtered == target else Shared(next.filter.y, target, r, filtered))
              && Clamps(j.prev, filtered, c.clampDelta, clamped)
              && Shared(clamped, filtered, r, next.prev)
  {
    target, r := Blended(c, t, j.measured, raw), ReleaseFactor(c, t);
    BlendIsExact(c, t, j.measured, raw);
    ReleaseIsExact(c, t);
    ReleaseIsAWeight(c, t);
    var f := FilterStep(c, j.filter, target);
    FilterIsExact(c, j.filter, target);
    FadeIsExact(f.y, target, r);
    filtered := if c.kind.NoFilter? then target else Faded(f.y, target, r);
    clamped := ClampStepDelta(j.prev, filtered, c.clampDelta);
    ClampIsExact(j.prev, filtered, c.clampDelta);
    FadeIsExact(clamped, filtered, r);
  }

  lemma ClampIsExact(prev: real, goal: real, most: real)
    ensures Clamps(prev, goal, most, ClampStepDelta(prev, goal, most))
  {
  }

  lemma MixIsShared(a: real, b: real, s: real)
    ensures Shared(a, b, s, Mix(a, b, s))
  {
  }

  lemma FadeIsExact(limited: real, free: real, r: real)
    requires r >= 0.0
    ensures Shared(limited, free, r, Faded(limited, free, r))
  {
    MixIsShared(limited, free, r);
  }

  lemma BlendIsExact(c: Settings, t: real, measured: real, raw: real)
    ensures Blends(c, t, measured, raw, Blended(c, t, measured, raw))
  {
    if Blending(c, t) {
      var s := Smoothstep(t / c.blendS);
      EasedIs(t, c.blendS, s);
      MixIsShared(measured, raw, s);
    }
  }

  lemma ReleaseIsExact(c: Settings, t: real)
    ensures Released(c, t, ReleaseFactor(c, t))
  {
    if c.releaseS > 0.0 && t >= c.releaseS && c.releaseRampS > 0.0 {
      var a := (t - c.releaseS) / c.releaseRampS;
      assert a * c.releaseRampS == t - c.releaseS;
      EasedIs(t - c.releaseS, c.releaseRampS, Smoothstep(a));
      if t >= c.releaseS + c.releaseRampS {
        if a < 1.0 { ProductPositive(1.0 - a, c.releaseRampS); }
        SmoothstepIsAnEasing(a);
      }
    }
  }

  lemma FilterIsExact(c: Settings, was: Damped, target: real)
    requires Usable(c)
    ensures Filters(c, was, target, FilterStep(c, was, target))
  {
    if c.kind.Ewma? { WeightIsExact(c.kind.tau, c.dt, was.y, target); }
  }

  // ---- Whole runs of one joint ----

  datatype Tick = Tick(raw: real, dt: real)

  function Elapsed(ticks: seq<Tick>): real {
    if ticks == [] then 0.0 else Elapsed(ticks[..|ticks| - 1]) + ticks[|ticks| - 1].dt
  }

  function After(c: Settings, q: real, ticks: seq<Tick>): Joint
    requires Usable(c)
  {
    if ticks == [] then StartJoint(q)
    else
      var before := ticks[..|ticks| - 1];
      StepJoint(c, Elapsed(before), After(c, q, before), ticks[|ticks| - 1].raw)
  }

  /** The command sent on the last tick of a run. */
  function Command(c: Settings, q: real, ticks: seq<Tick>): real
    requires Usable(c)
  {
    After(c, q, ticks).prev
  }

  /** A joint whose whole state respects [lo, hi]. */
  ghost predicate Inside(c: Settings, lo: real, hi: real, j: Joint) {
    && lo <= j.measured <= hi
    && lo <= j.prev <= hi
    && match c.kind
       case NoFilter => true
       case Ewma(_) => lo <= j.filter.y <= hi
       case CritDamp(wn) => Railed(wn, c.dt, lo, hi, j.filter)
  }

  /** The settings under which no filter can throw a joint out of an interval. */
  predicate Tuned(c: Settings) {
    match c.kind
    case NoFilter => true
    case Ewma(tau) => tau > 0.0 ==> c.dt >= 0.0
    case CritDamp(wn) => Tame(wn * c.dt)
  }

  lemma ReleaseIsAWeight(c: Settings, t: real)
    ensures 0.0 <= ReleaseFactor(c, t) <= 1.0
  {
    if c.releaseRampS > 0.0 { SmoothstepIsAnEasing((t - c.releaseS) / c.releaseRampS); }
  }

  lemma BlendedIsInside(c: Settings, lo: real, hi: real, t: real, q: real, raw: real)
    requires lo <= q <= hi && lo <= raw <= hi
    ensures lo <= Blended(c, t, q, raw) <= hi
  {
    if Blending(c, t) {
      SmoothstepIsAnEasing(t / c.blendS);
      MixIsBetween(q, raw, Smoothstep(t / c.blendS), lo, hi);
    }
  }

  lemma FilterStaysInside(c: Settings, lo: real, hi: real, j: Joint, target: real)
    requires Tuned(c) && Inside(c, lo, hi, j) && lo <= target <= hi
    ensures Inside(c, lo, hi, j.(filter := FilterStep(c, j.filter, target)))
    ensures !c.kind.NoFilter? ==> lo <= FilterStep(c, j.filter, target).y <= hi
  {
    match c.kind
    case NoFilter =>
    case Ewma(tau) =>
      if tau > 0.0 { AlphaIsAWeight(tau, c.dt); }
      MixIsBetween(j.filter.y, target, Alpha(tau, c.dt), lo, hi);
    case CritDamp(wn) =>
      RailedStep(wn, c.dt, lo, hi, j.filter, target);
  }

  lemma FadedIsBetween(limited: real, free: real, r: real, lo: real, hi: real)
    requires 0.0 <= r <= 1.0 && lo <= limited <= hi && lo <= free <= hi
    ensures lo <= Faded(limited, free, r) <= hi
  {
    if r > 0.0 { MixIsBetween(limited, free, r, lo, hi); }
  }

  lemma StepStaysInside(c: Settings, lo: real, hi: real, t: real, j: Joint, raw: real)
    requires Tuned(c) && Inside(c, lo, hi, j) && lo <= raw <= hi
    ensures Inside(c, lo, hi, StepJoint(c, t, j, raw))
  {
    var target, r := Blended(c, t, j.measured, raw), ReleaseFactor(c, t);
    ReleaseIsAWeight(c, t);
    BlendedIsInside(c, lo, hi, t, j.measured, raw);
    if r < 1.0 {
      FilterStaysInside(c, lo, hi, j, target);
      var f := FilterStep(c, j.filter, target);
      if !c.kind.NoFilter? { FadedIsBetween(f.y, target, r, lo, hi); }
      var filtered := if c.kind.NoFilter? then target else Faded(f.y, target, r);
      FadedIsBetween(ClampStepDelta(j.prev, filtered, c.clampDelta), filtered, r, lo, hi);
    }
  }

  ghost predicate RawWithin(lo: real, hi: real, ticks: seq<Tick>) {
    forall i :: 0 <= i < |ticks| ==> lo <= ticks[i].raw <= hi
  }

  lemma {:induction false} RunStaysInside(c: Settings, lo: real, hi: real, q: real, ticks: seq<Tick>)
    requires Tuned(c) && lo <= q <= hi && RawWithin(lo, hi, ticks)
    ensures Inside(c, lo, hi, After(c, q, ticks))
  {
    if ticks == [] {
      if c.kind.CritDamp? { RestIsRailed(c.kind.wn, c.dt, lo, hi, q); }
    } else {
      var before := ticks[..|ticks| - 1];
      RunStaysInside(c, lo, hi, q, before);
      StepStaysInside(c, lo, hi, Elapsed(before), After(c, q, before), ticks[|ticks| - 1].raw);
    }
  }

  /** A time at which the raw target has weight in the blend and nothing is released yet. */
  function ProbeTime(c: Settings): (t: real)
    ensures ReleaseFactor(c, t) == 0.0
  {
    if c.blendS <= 0.0 then 0.0
    else if c.releaseS <= 0.0 then c.blendS
    else (if c.blendS < c.releaseS then c.blendS else c.releaseS) / 2.0
  }

  /** The weight of the raw target at that time. */
  function ProbeWeight(c: Settings): real {
    if Blending(c, ProbeTime(c)) then Smoothstep(ProbeTime(c) / c.blendS) else 1.0
  }

  lemma ProbeWeightIsPositive(c: Settings)
    ensures 0.0 < ProbeWeight(c) <= 1.0
  {
    if Blending(c, ProbeTime(c)) {
      FractionOf(ProbeTime(c), c.blendS);
      EasingIsPositive(ProbeTime(c) / c.blendS);
    }
  }

  lemma FractionOf(x: real, y: real)
    requires 0.0 < x < y
    ensures 0.0 < x / y < 1.0
  {
    var a := x / y;
    assert a * y == x;
    if a <= 0.0 { ProductNonNegative(-a, y); }
    if a >= 1.0 { ProductNonNegative(a - 1.0, y); }
  }

  lemma EasingIsPositive(a: real)
    requires 0.0 < a < 1.0
    ensures 0.0 < Smoothstep(a) <= 1.0
  {
    CubicIsPositive(a);
    SmoothstepIsAnEasing(a);
    assert Clamp01(a) == a;
  }

  lemma CubicIsPositive(a: real)
    requires 0.0 < a < 1.0
    ensures Cubic(a) > 0.0
  {
    ProductPositive(a, 3.0 - 2.0 * a);
    var b := a * (3.0 - 2.0 * a);
    ProductPositive(a, b);
    assert a * b == a * a * (3.0 - 2.0 * a);
  }

  /** There is a dip small enough for the clamp to let the filter through, there and back. */
  lemma FittingDip(w: real, room: real, delta: real, weight: real) returns (e: real, x: real)
    requires w > 0.0 && Excess(w) > 0.0 && room > 0.0 && 0.0 < weight <= 1.0
    ensures 0.0 < e <= room && x == weight * e && Fits(w, x, delta)
  {
    var q, k := w * w, 1.0 + Excess(w);
    ProductPositive(w, w);
    ProductPositive(q, k);
    e := if delta <= 0.0 || room <= delta / (q * k) then room else delta / (q * k);
    if delta > 0.0 { Share(delta, q * k, e, room); }
    x := weight * e;
    ProductPositive(weight, e);
    ProductPositive(q, x);
    if delta > 0.0 {
      ProductNonNegative(1.0 - weight, e);
      ProductNonNegative(q * k, e - x);
      Regroup(q, Excess(w), x, e);
    }
  }

  lemma Share(delta: real, n: real, e: real, room: real)
    requires delta > 0.0 && n > 0.0 && room > 0.0 && e == if room <= delta / n then room else delta / n
    ensures e > 0.0 && n * e <= delta
  {
    var most := delta / n;
    assert most * n == delta;
    if most <= 0.0 { ProductNonNegative(-most, n); }
    ProductNonNegative(n, most - e);
  }

  lemma Regroup(q: real, s: real, x: real, e: real)
    ensures q * x + s * (q * x) == q * (1.0 + s) * x
    ensures q * (1.0 + s) * (e - x) == q * (1.0 + s) * e - q * (1.0 + s) * x
  {
  }

  /** The run that shows it: hold the posture hi until the probe time, dip, come back. */
  function DipRun(c: Settings, hi: real, e: real): seq<Tick> {
    [Tick(hi, ProbeTime(c)), Tick(hi - e, 0.0), Tick(hi, 0.0)]
  }

  lemma NextCommand(c: Settings, q: real, ticks: seq<Tick>, tick: Tick)
    requires Usable(c)
    ensures After(c, q, ticks + [tick]) == StepJoint(c, Elapsed(ticks), After(c, q, ticks), tick.raw)
    ensures Elapsed(ticks + [tick]) == Elapsed(ticks) + tick.dt
  {
    assert (ticks + [tick])[..|ticks|] == ticks;
  }

  /** Holding the posture changes nothing. */
  lemma PostureIsHeld(c: Settings, t: real, q: real)
    requires Usable(c) && c.kind.CritDamp?
    ensures Blended(c, t, q, q) == q && StepJoint(c, t, StartJoint(q), q) == StartJoint(q)
  {
    var sm := Smoothstep(t / (if c.blendS > 0.0 then c.blendS else 1.0));
    assert Mix(q, q, sm) == q;
    var f := FilterStep(c, Damped(q, 0.0), q);
    assert f == Damped(q, 0.0);
    var r := ReleaseFactor(c, t);
    assert Mix(q, q, r) == q;
  }

  /** The dip seen through the blend is the dip times the weight of the raw target. */
  lemma DipBlended(c: Settings, hi: real, e: real)
    ensures Blended(c, ProbeTime(c), hi, hi - e) == hi - ProbeWeight(c) * e
  {
    var k := ProbeWeight(c);
    assert Mix(hi, hi - e, k) == hi - k * e;
  }

  /** While nothing is released and the clamp does not bind, the command is the filter's position. */
  lemma FilterGetsThrough(c: Settings, t: real, j: Joint, raw: real)
    requires Usable(c) && c.kind.CritDamp? && ReleaseFactor(c, t) == 0.0
    ensures var f := FilterStep(c, j.filter, Blended(c, t, j.measured, raw));
            (c.clampDelta > 0.0 ==> -c.clampDelta <= f.y - j.prev <= c.clampDelta)
            ==> StepJoint(c, t, j, raw) == Joint(j.measured, f.y, f)
  {
  }

  lemma UntunedLeaves(c: Settings, lo: real, hi: real) returns (ticks: seq<Tick>)
    requires c.kind.CritDamp? && c.kind.wn * c.dt > 0.0 && !Tuned(c) && lo < hi
    ensures RawWithin(lo, hi, ticks) && Command(c, hi, ticks) > hi
  {
    var e := PickDip(c, lo, hi);
    var target := Blended(c, ProbeTime(c), hi, hi - e);
    var f1 := FilterStep(c, Damped(hi, 0.0), target);
    DipThrough(c, ProbeTime(c), hi, e, f1, FilterStep(c, f1, hi));
    DipRunStates(c, hi, e);
    ticks := DipRun(c, hi, e);
  }

  /** A dip inside the interval that takes the filter down, and up past the posture, by no more than
      the clamp. */
  lemma PickDip(c: Settings, lo: real, hi: real) returns (e: real)
    requires c.kind.CritDamp? && c.kind.wn * c.dt > 0.0 && !Tuned(c) && lo < hi
    ensures 0.0 < e <= hi - lo && DipOvershoots(c, hi, Blended(c, ProbeTime(c), hi, hi - e))
  {
    var w, k := c.kind.wn * c.dt, ProbeWeight(c);
    ProbeWeightIsPositive(c);
    var x;
    e, x := FittingDip(w, hi - lo, c.clampDelta, k);
    var target := Blended(c, ProbeTime(c), hi, hi - e);
    assert target == hi - x by { DipBlended(c, hi, e); }
    DipLands(c, w, hi, x, target);
  }

  /** Down and past hi, by no more than the clamp. */
  ghost predicate DipOvershoots(c: Settings, hi: real, target: real)
    requires Usable(c)
  {
    var f1 := FilterStep(c, Damped(hi, 0.0), target);
    var f2 := FilterStep(c, f1, hi);
    f1.y < hi < f2.y && (c.clampDelta > 0.0 ==> f2.y - f1.y <= c.clampDelta)
  }

  /** A dip of depth x that the clamp lets through. */
  ghost predicate Fits(w: real, x: real, delta: real) {
    var p := w * w * x;
    p > 0.0 && (delta > 0.0 ==> p + Excess(w) * p <= delta)
  }

  lemma DipLands(c: Settings, w: real, hi: real, x: real, target: real)
    requires c.kind.CritDamp? && w == c.kind.wn * c.dt && Excess(w) > 0.0 && Fits(w, x, c.clampDelta) && target == hi - x
    ensures DipOvershoots(c, hi, target)
  {
    var p := w * w * x;
    DipValues(c.kind.wn, c.dt, w, hi, target, p);
    ProductPositive(Excess(w), p);
  }

  /** The two ticks of the dip, given where the filter goes. */
  lemma DipThrough(c: Settings, t: real, hi: real, e: real, f1: Damped, f2: Damped)
    requires Usable(c) && c.kind.CritDamp? && ReleaseFactor(c, t) == 0.0
    requires f1 == FilterStep(c, Damped(hi, 0.0), Blended(c, t, hi, hi - e)) && f2 == FilterStep(c, f1, hi)
    requires f1.y < hi < f2.y && (c.clampDelta > 0.0 ==> f2.y - f1.y <= c.clampDelta)
    ensures StepJoint(c, t, StepJoint(c, t, StartJoint(hi), hi - e), hi).prev == f2.y
  {
    FilterGetsThrough(c, t, StartJoint(hi), hi - e);
    PostureIsHeld(c, t, hi);
    FilterGetsThrough(c, t, Joint(hi, f1.y, f1), hi);
  }

  lemma DipRunStates(c: Settings, hi: real, e: real)
    requires Usable(c) && c.kind.CritDamp?
    ensures var t := ProbeTime(c);
            After(c, hi, DipRun(c, hi, e)) == StepJoint(c, t, StepJoint(c, t, StartJoint(hi), hi - e), hi)
  {
    var a, b, d := Tick(hi, ProbeTime(c)), Tick(hi - e, 0.0), Tick(hi, 0.0);
    assert DipRun(c, hi, e) == [] + [a] + [b] + [d];
    NextCommand(c, hi, [], a);
    NextCommand(c, hi, [] + [a], b);
    NextCommand(c, hi, [] + [a] + [b], d);
    PostureIsHeld(c, 0.0, hi);
  }

  /** Exactly when the stack cannot leave an interval that holds the posture and the raw targets, for
      any blend, clamp and release settings: when its filter is tuned. The clamp does not help, for a
      dip can be made too small for it to bind. */
  lemma StackContainmentIsExact(c: Settings, lo: real, hi: real)
    requires Usable(c) && lo < hi && (c.kind.CritDamp? ==> c.kind.wn * c.dt > 0.0)
    ensures Tuned(c) <==>
            forall q: real, ticks: seq<Tick> :: lo <= q <= hi && RawWithin(lo, hi, ticks) ==> lo <= Command(c, q, ticks) <= hi
  {
    if Tuned(c) {
      forall q: real, ticks: seq<Tick> | lo <= q <= hi && RawWithin(lo, hi, ticks)
        ensures lo <= Command(c, q, ticks) <= hi
      {
        RunStaysInside(c, lo, hi, q, ticks);
      }
    } else {
      var ticks := UntunedLeaves(c, lo, hi);
      assert !(Command(c, hi, ticks) <= hi);
    }
  }

  /** The guarantees of the stack over a whole run of any length, with any tick durations:
      the first command is the measured posture; until release no command moves the joint by more
      than the clamp; commands stay in every interval holding the posture and the raw targets;
      and once blend and release are over the raw target passes through unchanged. */
  lemma RunIsSmooth(c: Settings, q: real, ticks: seq<Tick>, tick: Tick, lo: real, hi: real)
    requires Usable(c)
    ensures c.blendS > 0.0 && ticks == [] ==> Command(c, q, ticks + [tick]) == q
    ensures c.clampDelta > 0.0 && ReleaseFactor(c, Elapsed(ticks)) <= 0.0
            ==> -c.clampDelta <= Command(c, q, ticks + [tick]) - Command(c, q, ticks) <= c.clampDelta
    ensures Tuned(c) && lo <= q <= hi && RawWithin(lo, hi, ticks + [tick]) ==> lo <= Command(c, q, ticks + [tick]) <= hi
    ensures !Blending(c, Elapsed(ticks)) && ReleaseFactor(c, Elapsed(ticks)) >= 1.0 ==> Command(c, q, ticks + [tick]) == tick.raw
  {
    assert (ticks + [tick])[..|ticks|] == ticks;
    var j := After(c, q, ticks);
    assert After(c, q, ticks + [tick]) == StepJoint(c, Elapsed(ticks), j, tick.raw);
    if c.blendS > 0.0 && ticks == [] { RestIsHeld(c, q, tick.raw); }
    if Tuned(c) && lo <= q <= hi && RawWithin(lo, hi, ticks + [tick]) {
      RunStaysInside(c, lo, hi, q, ticks + [tick]);
    }
  }

  lemma RestIsHeld(c: Settings, q: real, raw: real)
    requires Usable(c) && c.blendS > 0.0
    ensures StepJoint(c, 0.0, StartJoint(q), raw).prev == q
  {
    var target := Blended(c, 0.0, q, raw);
    assert 0.0 / c.blendS == 0.0;
    assert Smoothstep(0.0) == 0.0;
    assert target == q;
    var f := FilterStep(c, Damped(q, 0.0), q);
    match c.kind
    case NoFilter =>
    case Ewma(tau) => assert f.y == q;
    case CritDamp(wn) => assert f.y == q;
  }

  ghost predicate RawOf(ticks: seq<Tick>, targets: seq<real>) {
    |targets| == |ticks| && forall i :: 0 <= i < |ticks| ==> targets[i] == ticks[i].raw
  }

  /** Without blend, clamp and release the commands of a run are the positions of the critically damped
      filter on the raw targets. */
  lemma {:induction false} StackIsFilter(c: Settings, q: real, ticks: seq<Tick>, targets: seq<real>)
    requires c.kind.CritDamp? && c.blendS <= 0.0 && c.clampDelta <= 0.0 && c.releaseS <= 0.0 && RawOf(ticks, targets)
    ensures After(c, q, ticks).filter == Tracked(c.kind.wn, c.dt, q, targets)
    ensures Command(c, q, ticks) == Tracked(c.kind.wn, c.dt, q, targets).y
  {
    if ticks != [] { StackIsFilter(c, q, ticks[..|ticks| - 1], targets[..|targets| - 1]); }
  }

  // ---- The object ----

  class JointSmoother {
    const c: Settings
    var ewma: EwmaFilter?
    var damped: CriticallyDampedFilter?
    var measured: Option<seq<real>>
    var prev: Option<seq<real>>
    var t: real

    ghost predicate Valid()
      reads this, ewma, damped
    {
      && Usable(c)
      && (c.kind.Ewma? <==> ewma != null)
      && (c.kind.CritDamp? <==> damped != null)
      && (measured.Some? <==> prev.Some?)
      && (measured.Some? ==> |prev.value| == |measured.value|)
      && (ewma != null ==>
            && ewma.tau == c.kind.tau && ewma.dt == c.dt
            && (measured.Some? ==> ewma.y.Some? && |ewma.y.value| == |measured.value|))
      && (damped != null ==>
            && damped.wn == c.kind.wn && damped.dt == c.dt && damped.Valid()
            && (measured.Some? ==> damped.y.Some? && |damped.y.value| == |measured.value|))
    }

    ghost predicate Ready(n: nat)
      reads this
    {
      measured.Some? && |measured.value| == n
    }

    ghost function FilterAt(i: nat): Damped
      reads this, ewma, damped
      requires Valid() && measured.Some? && i < |measured.value|
    {
      match c.kind
      case NoFilter => Damped(measured.value[i], 0.0)
      case Ewma(_) => Damped(ewma.y.value[i], 0.0)
      case CritDamp(_) => damped.Joint(i)
    }

    ghost function JointAt(i: nat): Joint
      reads this, ewma, damped
      requires Valid() && measured.Some? && i < |measured.value|
    {
      Joint(measured.value[i], prev.value[i], FilterAt(i))
    }

    constructor (c: Settings)
      requires Usable(c)
      ensures Valid() && this.c == c && measured.None?
    {
      this.c := c;
      ewma, damped, measured, prev, t := null, null, None, None, 0.0;
      new;
      match c.kind {
        case NoFilter =>
        case Ewma(tau) => ewma := new EwmaFilter(tau, c.dt);
        case CritDamp(wn) => damped := new CriticallyDampedFilter(wn, c.dt);
      }
    }

    method Reset(q: seq<real>)
      requires Valid()
      modifies this, ewma, damped
      ensures Valid() && ewma == old(ewma) && damped == old(damped)
      ensures measured == Some(q) && t == 0.0
      ensures forall i :: 0 <= i < |q| ==> JointAt(i) == StartJoint(q[i])
    {
      measured, prev, t := Some(q), Some(q), 0.0;
      if ewma != null { ewma.Reset(q); }
      if damped != null { damped.Reset(q); }
    }

    /** The running filter on a whole vector. */
    method Filter(target: seq<real>) returns (filtered: seq<real>)
      requires Valid() && Ready(|target|) && !c.kind.NoFilter?
      modifies ewma, damped
      ensures Valid() && |filtered| == |target|
      ensures forall i :: 0 <= i < |target| ==>
                FilterAt(i) == FilterStep(c, old(FilterAt(i)), target[i]) && filtered[i] == FilterAt(i).y
    {
      if ewma != null {
        filtered := ewma.Step(target);
      } else {
        filtered := damped.Step(target);
      }
    }

    /** Layer A: the start-up blend. */
    method BlendLayer(raw: seq<real>) returns (target: seq<real>)
      requires Ready(|raw|)
      ensures |target| == |raw|
      ensures forall i :: 0 <= i < |raw| ==> target[i] == Blended(c, t, measured.value[i], raw[i])
    {
      target := raw;
      if c.blendS > 0.0 && t < c.blendS {
        var q, alpha := measured.value, t / c.blendS;
        target := seq(|raw|, i requires 0 <= i < |raw| => BlendPose(q[i], raw[i], alpha));
      }
    }

    /** Layer D: the running filter, faded out toward its target. */
    method FilterLayer(target: seq<real>, r: real) returns (out: seq<real>)
      requires Valid() && Ready(|target|) && !c.kind.NoFilter?
      modifies ewma, damped
      ensures Valid() && |out| == |target|
      ensures forall i :: 0 <= i < |target| ==>
                FilterAt(i) == FilterStep(c, old(FilterAt(i)), target[i]) && out[i] == Faded(FilterAt(i).y, target[i], r)
    {
      var filtered := Filter(target);
      out := if r <= 0.0 then filtered else seq(|target|, i requires 0 <= i < |target| => Mix(filtered[i], target[i], r));
    }

    /** Layer C: the per-tick clamp, faded out likewise. */
    method ClampLayer(last: seq<real>, free: seq<real>, r: real) returns (cmd: seq<real>)
      requires |last| == |free|
      ensures |cmd| == |free|
      ensures forall i :: 0 <= i < |free| ==> cmd[i] == Faded(ClampStepDelta(last[i], free[i], c.clampDelta), free[i], r)
    {
      var clamped := seq(|free|, i requires 0 <= i < |free| => ClampStepDelta(last[i], free[i], c.clampDelta));
      cmd := if r <= 0.0 then clamped else seq(|free|, i requires 0 <= i < |free| => Mix(clamped[i], free[i], r));
    }

    /** One tick: every joint advances as specified, and the commands are what is sent. A tick
        before any reset starts from its own raw target. */
    method Step(raw: seq<real>, period: Option<real>) returns (cmd: seq<real>)
      requires Valid() && (measured.Some? ==> Ready(|raw|))
      modifies this, ewma, damped
      ensures Valid() && ewma == old(ewma) && damped == old(damped) && Ready(|raw|)
      ensures t == (if old(measured).Some? then old(t) else 0.0) + (if period.Some? then period.value else c.dt)
      ensures |cmd| == |raw| && prev == Some(cmd)
      ensures old(measured).Some? ==> forall i :: 0 <= i < |raw| ==> JointAt(i) == StepJoint(c, old(t), old(JointAt(i)), raw[i])
      ensures old(measured).None? ==> forall i :: 0 <= i < |raw| ==> JointAt(i) == StepJoint(c, 0.0, StartJoint(raw[i]), raw[i])
    {
      if measured.None? { Reset(raw); }
      var last, r := prev.value, ReleaseFactor(c, t);
      cmd := BlendLayer(raw);
      if !c.kind.NoFilter? && r < 1.0 { cmd := FilterLayer(cmd, r); }
      if r < 1.0 { cmd := ClampLayer(last, cmd, r); }
      prev := Some(cmd);
      t := t + (match period case Some(dt) => dt case None => c.dt);
    }
  }
}
