/** The velocity bridge to the native gait: command smoothing, latched e-stop and watchdog. */
module Bridge {
  import opened Reals
  import opened Wrappers

  datatype Vel = Vel(x: real, y: real, w: real)

  const ZERO := Vel(0.0, 0.0, 0.0)

  datatype Config = Config(vmax: Vel, cmdTimeout: real, startupRamp: real, linAccel: real, yawAccel: real, alpha: real)

  ghost predicate Sensible(c: Config) {
    && c.vmax.x >= 0.0 && c.vmax.y >= 0.0 && c.vmax.w >= 0.0
    && c.linAccel >= 0.0 && c.yawAccel >= 0.0 && 0.0 <= c.alpha <= 1.0
  }

  function Clip(v: real, lim: real): real {
    var low := if v < lim then v else lim;
    if low > -lim then low else -lim
  }

  function ClipVel(v: Vel, lim: Vel): Vel {
    Vel(Clip(v.x, lim.x), Clip(v.y, lim.y), Clip(v.w, lim.w))
  }

  function Times(a: real, b: real): real { a * b }

  /** One axis: a low-pass step toward the target, limited to rate * dt. */
  function Approach(prev: real, target: real, alpha: real, rate: real, dt: real): real {
    var step, lim := Times(alpha, target - prev), Times(rate, dt);
    prev + (if step > lim then lim else if step < -lim then -lim else step)
  }

  /** A tick that took no time counts as a millisecond. */
  function EffectiveDt(dt: real): real { if dt <= 0.0 then 0.001 else dt }

  function Ramp(c: Config, elapsed: real): real {
    if c.startupRamp <= 0.0 then 1.0
    else var r := elapsed / c.startupRamp; if r < 1.0 then r else 1.0
  }

  function Scale(v: Vel, k: real): Vel { Vel(Times(v.x, k), Times(v.y, k), Times(v.w, k)) }

  function Smooth(c: Config, v: Vel, cmd: Vel, ramp: real, dt: real): Vel {
    var t := Scale(cmd, ramp);
    Vel(Approach(v.x, t.x, c.alpha, c.linAccel, dt),
        Approach(v.y, t.y, c.alpha, c.linAccel, dt),
        Approach(v.w, t.w, c.alpha, c.yawAccel, dt))
  }

  class VelocitySmoother {
    const cfg: Config
    var v: Vel
    var t0: real

    constructor (cfg: Config, now: real)
      ensures this.cfg == cfg && v == ZERO && t0 == now
    {
      this.cfg, v, t0 := cfg, ZERO, now;
    }

    method Reset(now: real)
      modifies this
      ensures v == ZERO && t0 == now
    {
      v, t0 := ZERO, now;
    }

    method Step(cmd: Vel, dt: real, now: real) returns (out: Vel)
      modifies this`v
      ensures out == v == Smooth(cfg, old(v), cmd, Ramp(cfg, now - t0), EffectiveDt(dt))
    {
      var d := if dt <= 0.0 then 0.001 else dt;
      var ramp := Ramp(cfg, now - t0);
      v := Vel(Approach(v.x, Times(cmd.x, ramp), cfg.alpha, cfg.linAccel, d),
               Approach(v.y, Times(cmd.y, ramp), cfg.alpha, cfg.linAccel, d),
               Approach(v.w, Times(cmd.w, ramp), cfg.alpha, cfg.yawAccel, d));
      out := v;
    }
  }

  /** The bridge's state, and the events it reacts to, each stamped with the clock. */
  datatype State = State(cmd: Vel, lastCmdT: real, timedOut: bool, estop: bool, lastTickT: real, v: Vel, rampT0: real)

  datatype Event =
    | Twist(now: real, v: Vel)
    | EStop(now: real, engaged: bool)
    | Tick(now: real)

  function Initial(now: real): State { State(ZERO, now, false, false, now, ZERO, now) }

  /** The state after an event and the velocity it sends to the gait, if any. */
  function React(c: Config, s: State, e: Event): (State, Option<Vel>) {
    match e
    case Twist(now, v) => (s.(cmd := ClipVel(v, c.vmax), lastCmdT := now, timedOut := false), None)
    case EStop(now, engaged) =>
      if engaged == s.estop then (s, None)
      else if engaged then (s.(estop := true, cmd := ZERO, v := ZERO, rampT0 := now), Some(ZERO))
      else (s.(estop := false), None)
    case Tick(now) =>
      var s' := s.(lastTickT := now);
      if s.estop then (s', Some(ZERO))
      else if now - s.lastCmdT > c.cmdTimeout then
        (s'.(timedOut := true, cmd := ZERO, v := ZERO, rampT0 := now), Some(ZERO))
      else
        var v := Smooth(c, s.v, s.cmd, Ramp(c, now - s.rampT0), EffectiveDt(now - s.lastTickT));
        (s'.(v := v), Some(v))
  }

  class VelocityBridge {
    const cfg: Config
    const smoother: VelocitySmoother
    var cmd: Vel
    var lastCmdT: real
    var timedOut: bool
    var estop: bool
    var lastTickT: real

    ghost predicate Valid()
      reads this, smoother
    {
      smoother.cfg == cfg
    }

    ghost function View(): State
      reads this, smoother
    {
      State(cmd, lastCmdT, timedOut, estop, lastTickT, smoother.v, smoother.t0)
    }

    constructor (cfg: Config, now: real)
      ensures Valid() && View() == Initial(now) && fresh(smoother) && this.cfg == cfg
    {
      this.cfg := cfg;
      smoother := new VelocitySmoother(cfg, now);
      cmd, lastCmdT, timedOut, estop, lastTickT := ZERO, now, false, false, now;
    }

    method OnTwist(now: real, v: Vel)
      requires Valid()
      modifies this
      ensures Valid() && (View(), None) == React(cfg, old(View()), Twist(now, v))
    {
      cmd := Vel(Clip(v.x, cfg.vmax.x), Clip(v.y, cfg.vmax.y), Clip(v.w, cfg.vmax.w));
      lastCmdT := now;
      if timedOut { timedOut := false; }
    }

    /** Engaging also sends a stop. */
    method OnEstop(now: real, engaged: bool) returns (sent: Option<Vel>)
      requires Valid()
      modifies this, smoother
      ensures Valid() && (View(), sent) == React(cfg, old(View()), EStop(now, engaged))
    {
      sent := None;
      if engaged != estop {
        estop := engaged;
        if engaged {
          cmd := ZERO;
          smoother.Reset(now);
          sent := Some(ZERO);
        }
      }
    }

    method OnTick(now: real) returns (sent: Option<Vel>)
      requires Valid()
      modifies this, smoother
      ensures Valid() && (View(), sent) == React(cfg, old(View()), Tick(now))
    {
      var dt := now - lastTickT;
      lastTickT := now;
      if estop { return Some(ZERO); }
      if now - lastCmdT > cfg.cmdTimeout {
        if !timedOut { timedOut := true; }
        cmd := ZERO;
        smoother.Reset(now);
        return Some(ZERO);
      }
      var v := smoother.Step(cmd, dt, now);
      sent := Some(v);
    }
  }

  // ---- Whole runs ----

  ghost predicate Monotone(t0: real, es: seq<Event>) {
    && (forall i :: 0 <= i < |es| ==> t0 <= es[i].now)
    && (forall i, j :: 0 <= i < j < |es| ==> es[i].now <= es[j].now)
  }

  function After(c: Config, t0: real, es: seq<Event>): State {
    if |es| == 0 then Initial(t0) else React(c, After(c, t0, es[..|es| - 1]), es[|es| - 1]).0
  }

  /** What event i of the run sends. */
  function Sent(c: Config, t0: real, es: seq<Event>, i: nat): Option<Vel>
    requires i < |es|
  {
    React(c, After(c, t0, es[..i]), es[i]).1
  }

  /** The velocity last sent during the run; a gait that was sent nothing stands still. */
  function LastSent(c: Config, t0: real, es: seq<Event>): Vel {
    if |es| == 0 then ZERO
    else
      match Sent(c, t0, es, |es| - 1)
      case Some(v) => v
      case None => LastSent(c, t0, es[..|es| - 1])
  }

  /** When the latest command arrived, by the history alone. */
  function LastTwist(t0: real, es: seq<Event>): real {
    if |es| == 0 then t0
    else if es[|es| - 1].Twist? then es[|es| - 1].now
    else LastTwist(t0, es[..|es| - 1])
  }

  /** When the latest tick ran, by the history alone. */
  function LastTick(t0: real, es: seq<Event>): real {
    if |es| == 0 then t0
    else if es[|es| - 1].Tick? then es[|es| - 1].now
    else LastTick(t0, es[..|es| - 1])
  }

  /** Whether the latest e-stop message engaged it, by the history alone. */
  function Latched(es: seq<Event>): bool {
    if |es| == 0 then false
    else if es[|es| - 1].EStop? then es[|es| - 1].engaged
    else Latched(es[..|es| - 1])
  }

  /** The event engages the e-stop, or is a tick that finds the commands timed out. */
  predicate Stops(c: Config, t0: real, h: seq<Event>, e: Event) {
    (e.EStop? && e.engaged && !Latched(h)) || (e.Tick? && !Latched(h) && e.now - LastTwist(t0, h) > c.cmdTimeout)
  }

  /** The latest command since the latest stop, by the history alone. */
  function LatestTwist(c: Config, t0: real, es: seq<Event>): Option<Vel> {
    if |es| == 0 then None
    else
      var h, e := es[..|es| - 1], es[|es| - 1];
      if e.Twist? then Some(e.v) else if Stops(c, t0, h, e) then None else LatestTwist(c, t0, h)
  }

  /** When the ramp began: at the latest stop, or at the start. */
  function LastStop(c: Config, t0: real, es: seq<Event>): real {
    if |es| == 0 then t0
    else
      var h, e := es[..|es| - 1], es[|es| - 1];
      if Stops(c, t0, h, e) then e.now else LastStop(c, t0, h)
  }

  /** y is x if that is within the cap, and otherwise the cap of the same sign. */
  ghost predicate Capped(x: real, cap: real, y: real) {
    && (-cap <= x <= cap ==> y == x)
    && (x > cap ==> y == cap)
    && (x < -cap ==> y == -cap)
  }

  ghost predicate CappedVel(v: Vel, caps: Vel, u: Vel) {
    Capped(v.x, caps.x, u.x) && Capped(v.y, caps.y, u.y) && Capped(v.w, caps.w, u.w)
  }

  /** The velocity asked for: the latest command since the latest stop, capped; none asks for a standstill. */
  ghost predicate Asked(c: Config, t0: real, es: seq<Event>, u: Vel) {
    match LatestTwist(c, t0, es)
    case None => u == ZERO
    case Some(v) => CappedVel(v, c.vmax, u)
  }

  /** The stored command and the start of the ramp are those of the history. */
  lemma {:induction false} CommandFollowsHistory(c: Config, t0: real, es: seq<Event>)
    requires Sensible(c) && Monotone(t0, es)
    ensures Asked(c, t0, es, After(c, t0, es).cmd) && After(c, t0, es).rampT0 == LastStop(c, t0, es)
  {
    if |es| > 0 {
      var front, e := es[..|es| - 1], es[|es| - 1];
      CommandFollowsHistory(c, t0, front);
      AlwaysConsistent(c, t0, front);
      CommandStep(c, After(c, t0, front), e);
    }
  }

  lemma CommandStep(c: Config, s: State, e: Event)
    ensures var s' := React(c, s, e).0;
            var stops := (e.EStop? && e.engaged && !s.estop) || (e.Tick? && !s.estop && e.now - s.lastCmdT > c.cmdTimeout);
            && s'.cmd == (if e.Twist? then ClipVel(e.v, c.vmax) else if stops then ZERO else s.cmd)
            && s'.rampT0 == (if stops then e.now else s.rampT0)
  {
  }

  /** Only one velocity is asked for. */
  lemma AskedOnce(c: Config, t0: real, es: seq<Event>, u: Vel, w: Vel)
    requires Sensible(c) && Asked(c, t0, es, u) && Asked(c, t0, es, w)
    ensures u == w
  {
  }

  /** r is the fraction of the start-up ramp done after the elapsed time, all of it without a ramp. */
  ghost predicate RampDone(c: Config, elapsed: real, r: real) {
    if c.startupRamp <= 0.0 || elapsed >= c.startupRamp then r == 1.0 else r * c.startupRamp == elapsed
  }

  lemma RampIsExact(c: Config, elapsed: real, r: real)
    requires RampDone(c, elapsed, r)
    ensures Ramp(c, elapsed) == r
  {
    if c.startupRamp > 0.0 {
      var q := elapsed / c.startupRamp;
      assert q * c.startupRamp == elapsed;
      if q < 1.0 && elapsed >= c.startupRamp { ProductPositive(1.0 - q, c.startupRamp); }
      if q >= 1.0 { ProductNonNegative(q - 1.0, c.startupRamp); }
      if elapsed < c.startupRamp { OneFactor(q, r, c.startupRamp); }
    }
  }

  lemma OneFactor(q: real, r: real, d: real)
    requires d > 0.0 && q * d == r * d
    ensures q == r
  {
    if q < r { ProductPositive(r - q, d); }
    if r < q { ProductPositive(q - r, d); }
  }

  /** One axis moves toward the part r of what is asked by alpha times the gap when that fits the limit
      rate * dt, and by the whole limit otherwise. */
  ghost predicate Tracks(prev: real, asked: real, r: real, alpha: real, rate: real, dt: real, next: real) {
    var step, lim := alpha * (asked * r - prev), rate * dt;
    && (-lim <= step <= lim ==> next == prev + step)
    && (step > lim ==> next == prev + lim)
    && (step < -lim ==> next == prev - lim)
  }

  /** What a smoothing tick sends, by the history: every axis tracks the velocity asked for, times the
      ramp, from the velocity last sent. */
  lemma TicksTrack(c: Config, t0: real, es: seq<Event>, i: nat, u: Vel, r: real, dt: real)
    requires Sensible(c) && Monotone(t0, es) && i < |es| && Smooths(c, t0, es, i)
    requires Asked(c, t0, es[..i], u) && RampDone(c, es[i].now - LastStop(c, t0, es[..i]), r)
    requires var gap := es[i].now - LastTick(t0, es[..i]); dt == if gap > 0.0 then gap else 0.001
    ensures var prev, out := LastSent(c, t0, es[..i]), Sent(c, t0, es, i);
            && out.Some?
            && Tracks(prev.x, u.x, r, c.alpha, c.linAccel, dt, out.value.x)
            && Tracks(prev.y, u.y, r, c.alpha, c.linAccel, dt, out.value.y)
            && Tracks(prev.w, u.w, r, c.alpha, c.yawAccel, dt, out.value.w)
  {
    SmoothingTick(c, t0, es, i, u, r);
    SmoothTracks(c, LastSent(c, t0, es[..i]), u, r, dt);
  }

  lemma SmoothTracks(c: Config, prev: Vel, u: Vel, r: real, dt: real)
    requires Sensible(c) && dt >= 0.0
    ensures var out := Smooth(c, prev, u, r, dt);
            && Tracks(prev.x, u.x, r, c.alpha, c.linAccel, dt, out.x)
            && Tracks(prev.y, u.y, r, c.alpha, c.linAccel, dt, out.y)
            && Tracks(prev.w, u.w, r, c.alpha, c.yawAccel, dt, out.w)
  {
    ApproachTracks(prev.x, u.x, r, c.alpha, c.linAccel, dt);
    ApproachTracks(prev.y, u.y, r, c.alpha, c.linAccel, dt);
    ApproachTracks(prev.w, u.w, r, c.alpha, c.yawAccel, dt);
  }

  lemma ApproachTracks(prev: real, asked: real, r: real, alpha: real, rate: real, dt: real)
    requires rate >= 0.0 && dt >= 0.0
    ensures Tracks(prev, asked, r, alpha, rate, dt, Approach(prev, Times(asked, r), alpha, rate, dt))
  {
    ProductNonNegative(rate, dt);
  }

  lemma SmoothingTick(c: Config, t0: real, es: seq<Event>, i: nat, u: Vel, r: real)
    requires Sensible(c) && Monotone(t0, es) && i < |es| && Smooths(c, t0, es, i)
    requires Asked(c, t0, es[..i], u) && RampDone(c, es[i].now - LastStop(c, t0, es[..i]), r)
    ensures Sent(c, t0, es, i) == Some(Smooth(c, LastSent(c, t0, es[..i]), u, r, EffectiveDt(es[i].now - LastTick(t0, es[..i]))))
  {
    AlwaysConsistent(c, t0, es[..i]);
    CommandFollowsHistory(c, t0, es[..i]);
    AskedOnce(c, t0, es[..i], u, After(c, t0, es[..i]).cmd);
    RampIsExact(c, es[i].now - LastStop(c, t0, es[..i]), r);
  }

  // ---- Reaching a steady command ----

  /** Event i repeats the command v, or is a smoothing tick at least d after the tick before it and past
      the start-up ramp. */
  ghost predicate SteadyAt(c: Config, t0: real, es: seq<Event>, i: nat, v: Vel, d: real)
    requires i < |es|
  {
    || (es[i].Twist? && es[i].v == v)
    || (&& Smooths(c, t0, es, i)
        && es[i].now - LastTick(t0, es[..i]) >= d
        && es[i].now - LastStop(c, t0, es[..i]) >= c.startupRamp)
  }

  /** From position `from` on, where the command v arrives, the run is steady. */
  ghost predicate Steady(c: Config, t0: real, es: seq<Event>, from: nat, v: Vel, d: real) {
    && Monotone(t0, es)
    && from < |es| && es[from].Twist? && es[from].v == v
    && forall i :: from < i < |es| ==> SteadyAt(c, t0, es, i, v, d)
  }

  /** Number of ticks from a position on. */
  function TicksFrom(es: seq<Event>, from: nat): nat {
    if |es| <= from then 0
    else TicksFrom(es[..|es| - 1], from) + if es[|es| - 1].Tick? then 1 else 0
  }

  function Gap(a: real, b: real): real { if a <= b then b - a else a - b }

  function Larger(a: real, b: real): real { if a >= b then a else b }

  /** While farther than eps, one step closes the gap by at least m. */
  lemma GapCloses(prev: real, target: real, alpha: real, rate: real, dt: real, d: real, eps: real, m: real, room: real)
    requires 0.0 < alpha <= 1.0 && rate > 0.0 && dt >= d > 0.0 && eps > 0.0
    requires 0.0 <= m <= alpha * eps && m <= rate * d
    requires Gap(prev, target) <= Larger(eps, room)
    ensures Gap(Approach(prev, target, alpha, rate, dt), target) <= Larger(eps, room - m)
  {
    if Gap(prev, target) > eps {
      TimesGrows(alpha, eps, Gap(prev, target));
      TimesGrows(rate, d, dt);
      ClosesBy(prev, target, alpha, rate, dt, m);
    } else {
      ApproachIsLimited(prev, target, alpha, rate, dt);
    }
  }

  lemma TimesGrows(k: real, a: real, b: real)
    requires k >= 0.0 && a <= b
    ensures k * a <= Times(k, b)
  {
    ProductNonNegative(k, b - a);
  }

  lemma ClosesBy(prev: real, target: real, alpha: real, rate: real, dt: real, m: real)
    requires 0.0 <= alpha <= 1.0 && rate >= 0.0 && dt >= 0.0
    requires m <= Times(alpha, Gap(prev, target)) && m <= Times(rate, dt)
    ensures Gap(Approach(prev, target, alpha, rate, dt), target) <= Gap(prev, target) - m
  {
    ApproachIsLimited(prev, target, alpha, rate, dt);
    StepSize(alpha, prev, target);
    ProductNonNegative(rate, dt);
  }

  lemma StepSize(alpha: real, prev: real, target: real)
    requires alpha >= 0.0
    ensures var step := Times(alpha, target - prev);
            0.0 <= Times(alpha, Gap(prev, target)) == if prev <= target then step else -step
  {
    ProductNonNegative(alpha, Gap(prev, target));
  }

  /** A steady run keeps asking for the capped command. */
  lemma {:induction false} SteadyAsks(c: Config, t0: real, es: seq<Event>, from: nat, v: Vel, d: real, u: Vel)
    requires Sensible(c) && Steady(c, t0, es, from, v, d) && CappedVel(v, c.vmax, u)
    ensures Asked(c, t0, es, u)
  {
    if |es| - 1 > from {
      assert SteadyAt(c, t0, es, |es| - 1, v, d);
      SteadyFront(c, t0, es, from, v, d);
      SteadyAsks(c, t0, es[..|es| - 1], from, v, d, u);
    }
  }

  lemma SteadyFront(c: Config, t0: real, es: seq<Event>, from: nat, v: Vel, d: real)
    requires Steady(c, t0, es, from, v, d) && from < |es| - 1
    ensures Steady(c, t0, es[..|es| - 1], from, v, d)
  {
    var front := es[..|es| - 1];
    forall i | from < i < |front| ensures SteadyAt(c, t0, front, i, v, d) {
      assert SteadyAt(c, t0, es, i, v, d) && es[..i] == front[..i];
    }
  }

  /** Room left on every axis after n closing steps. */
  ghost predicate Near(a: Vel, b: Vel, eps: real, room: Vel) {
    Gap(a.x, b.x) <= Larger(eps, room.x) && Gap(a.y, b.y) <= Larger(eps, room.y) && Gap(a.w, b.w) <= Larger(eps, room.w)
  }

  function RoomAfter(cap: real, m: real, n: nat): real { 2.0 * cap - n as real * m }

  function Rooms(c: Config, m: real, n: nat): Vel {
    Vel(RoomAfter(c.vmax.x, m, n), RoomAfter(c.vmax.y, m, n), RoomAfter(c.vmax.w, m, n))
  }

  lemma RoomShrinks(cap: real, m: real, n: nat)
    ensures RoomAfter(cap, m, n + 1) == RoomAfter(cap, m, n) - m
  {
  }

  ghost predicate Responsive(c: Config, d: real, eps: real, m: real) {
    && Sensible(c) && c.alpha > 0.0 && c.linAccel > 0.0 && c.yawAccel > 0.0 && d > 0.0 && eps > 0.0
    && 0.0 < m <= c.alpha * eps && m <= c.linAccel * d && m <= c.yawAccel * d
  }

  lemma {:induction false} SteadyCloses(c: Config, t0: real, es: seq<Event>, from: nat, v: Vel, d: real, eps: real, m: real,
                                        u: Vel)
    requires Responsive(c, d, eps, m) && Steady(c, t0, es, from, v, d) && CappedVel(v, c.vmax, u)
    ensures Near(LastSent(c, t0, es), u, eps, Rooms(c, m, TicksFrom(es, from)))
  {
    if |es| - 1 == from {
      SteadyStarts(c, t0, es, from, v, d, eps, m, u);
    } else {
      SteadyFront(c, t0, es, from, v, d);
      SteadyCloses(c, t0, es[..|es| - 1], from, v, d, eps, m, u);
      assert SteadyAt(c, t0, es, |es| - 1, v, d);
      if es[|es| - 1].Tick? {
        TickCloses(c, t0, es, from, v, d, eps, m, u);
      } else {
        TwistSendsNothing(c, t0, es, from);
      }
    }
  }

  lemma TwistSendsNothing(c: Config, t0: real, es: seq<Event>, from: nat)
    requires |es| > 0 && es[|es| - 1].Twist?
    ensures LastSent(c, t0, es) == LastSent(c, t0, es[..|es| - 1])
    ensures TicksFrom(es, from) == TicksFrom(es[..|es| - 1], from)
  {
  }

  lemma SteadyStarts(c: Config, t0: real, es: seq<Event>, from: nat, v: Vel, d: real, eps: real, m: real, u: Vel)
    requires Responsive(c, d, eps, m) && Steady(c, t0, es, from, v, d) && CappedVel(v, c.vmax, u) && |es| - 1 == from
    ensures Near(LastSent(c, t0, es), u, eps, Rooms(c, m, TicksFrom(es, from)))
  {
    AlwaysConsistent(c, t0, es);
    assert TicksFrom(es[..from], from) == 0;
    assert RoomAfter(c.vmax.x, m, 0) == 2.0 * c.vmax.x && RoomAfter(c.vmax.y, m, 0) == 2.0 * c.vmax.y
           && RoomAfter(c.vmax.w, m, 0) == 2.0 * c.vmax.w;
  }

  lemma TickCloses(c: Config, t0: real, es: seq<Event>, from: nat, v: Vel, d: real, eps: real, m: real, u: Vel)
    requires Responsive(c, d, eps, m) && Steady(c, t0, es, from, v, d) && CappedVel(v, c.vmax, u)
    requires from < |es| - 1 && es[|es| - 1].Tick? && SteadyAt(c, t0, es, |es| - 1, v, d)
    requires Near(LastSent(c, t0, es[..|es| - 1]), u, eps, Rooms(c, m, TicksFrom(es[..|es| - 1], from)))
    ensures Near(LastSent(c, t0, es), u, eps, Rooms(c, m, TicksFrom(es, from)))
  {
    var n := |es| - 1;
    var front, k := es[..n], TicksFrom(es[..n], from);
    SteadyFront(c, t0, es, from, v, d);
    SteadyAsks(c, t0, front, from, v, d, u);
    SmoothingTick(c, t0, es, n, u, 1.0);
    var dt := es[n].now - LastTick(t0, front);
    StepCloses(c, LastSent(c, t0, front), u, dt, d, eps, m, Rooms(c, m, k));
    RoomShrinks(c.vmax.x, m, k);
    RoomShrinks(c.vmax.y, m, k);
    RoomShrinks(c.vmax.w, m, k);
    assert LastSent(c, t0, es) == Smooth(c, LastSent(c, t0, front), u, 1.0, dt);
  }

  lemma StepCloses(c: Config, prev: Vel, u: Vel, dt: real, d: real, eps: real, m: real, room: Vel)
    requires Responsive(c, d, eps, m) && dt >= d && Near(prev, u, eps, room)
    ensures Near(Smooth(c, prev, u, 1.0, dt), u, eps, Vel(room.x - m, room.y - m, room.w - m))
  {
    GapCloses(prev.x, u.x, c.alpha, c.linAccel, dt, d, eps, m, room.x);
    GapCloses(prev.y, u.y, c.alpha, c.linAccel, dt, d, eps, m, room.y);
    GapCloses(prev.w, u.w, c.alpha, c.yawAccel, dt, d, eps, m, room.w);
    assert Scale(u, 1.0) == u;
  }

  /** Within eps on every axis. */
  ghost predicate Close(a: Vel, b: Vel, eps: real) {
    -eps <= a.x - b.x <= eps && -eps <= a.y - b.y <= eps && -eps <= a.w - b.w <= eps
  }

  /** A steady command is reached: for every tolerance there is a number of ticks after which the velocity
      last sent is, and stays, within that tolerance of the capped command, whatever the run before. */
  lemma CommandIsReached(c: Config, v: Vel, u: Vel, d: real, eps: real) returns (n: nat)
    requires Sensible(c) && c.alpha > 0.0 && c.linAccel > 0.0 && c.yawAccel > 0.0 && d > 0.0 && eps > 0.0
    requires CappedVel(v, c.vmax, u)
    ensures forall t0, es, from :: Steady(c, t0, es, from, v, d) && TicksFrom(es, from) >= n ==>
              Close(LastSent(c, t0, es), u, eps)
  {
    var m := SmallestStep(c, d, eps);
    var cap := Larger(c.vmax.x, Larger(c.vmax.y, c.vmax.w));
    n := Enough(2.0 * cap, m);
    forall t0, es, from | Steady(c, t0, es, from, v, d) && TicksFrom(es, from) >= n ensures Close(LastSent(c, t0, es), u, eps) {
      SteadyCloses(c, t0, es, from, v, d, eps, m, u);
      RoomUsed(c.vmax.x, cap, m, n, TicksFrom(es, from));
      RoomUsed(c.vmax.y, cap, m, n, TicksFrom(es, from));
      RoomUsed(c.vmax.w, cap, m, n, TicksFrom(es, from));
    }
  }

  lemma RoomUsed(cap: real, most: real, m: real, n: nat, k: nat)
    requires cap <= most && m > 0.0 && n as real * m >= 2.0 * most && k >= n
    ensures RoomAfter(cap, m, k) <= 0.0
  {
    ProductNonNegative((k - n) as real, m);
    assert k as real * m == n as real * m + (k - n) as real * m;
  }

  lemma SmallestStep(c: Config, d: real, eps: real) returns (m: real)
    requires Sensible(c) && c.alpha > 0.0 && c.linAccel > 0.0 && c.yawAccel > 0.0 && d > 0.0 && eps > 0.0
    ensures Responsive(c, d, eps, m)
  {
    var a, b, e := c.alpha * eps, c.linAccel * d, c.yawAccel * d;
    ProductPositive(c.alpha, eps);
    ProductPositive(c.linAccel, d);
    ProductPositive(c.yawAccel, d);
    m := if a <= b && a <= e then a else if b <= e then b else e;
  }

  lemma Enough(total: real, m: real) returns (n: nat)
    requires total >= 0.0 && m > 0.0
    ensures n as real * m >= total
  {
    var q := total / m;
    assert q * m == total;
    if q < 0.0 { ProductPositive(-q, m); }
    n := q.Floor + 1;
    ProductNonNegative(n as real - q, m);
  }

  ghost predicate Within(v: Vel, lim: Vel) {
    -lim.x <= v.x <= lim.x && -lim.y <= v.y <= lim.y && -lim.w <= v.w <= lim.w
  }

  /** Per axis, b differs from a by at most the acceleration limit times dt. */
  ghost predicate SlewLimited(c: Config, a: Vel, b: Vel, dt: real) {
    && -Times(c.linAccel, dt) <= b.x - a.x <= Times(c.linAccel, dt)
    && -Times(c.linAccel, dt) <= b.y - a.y <= Times(c.linAccel, dt)
    && -Times(c.yawAccel, dt) <= b.w - a.w <= Times(c.yawAccel, dt)
  }

  ghost predicate Between(a: real, b: real, x: real) {
    a <= x <= b || b <= x <= a
  }

  lemma ApproachIsLimited(prev: real, target: real, alpha: real, rate: real, dt: real)
    requires 0.0 <= alpha <= 1.0 && rate >= 0.0 && dt >= 0.0
    ensures -Times(rate, dt) <= Approach(prev, target, alpha, rate, dt) - prev <= Times(rate, dt)
    ensures Between(prev, target, Approach(prev, target, alpha, rate, dt))
  {
    ProductNonNegative(rate, dt);
    PartOf(alpha, target - prev);
  }

  lemma PartOf(k: real, x: real)
    requires 0.0 <= k <= 1.0
    ensures Between(0.0, x, Times(k, x)) && Between(0.0, x, Times(x, k))
  {
    var y := if x >= 0.0 then x else -x;
    ProductNonNegative(k, y);
    ProductNonNegative(1.0 - k, y);
    assert Times(k, x) == Times(x, k) == if x >= 0.0 then Times(k, y) else -Times(k, y);
    assert Times(1.0 - k, y) == y - Times(k, y);
  }

  lemma RampIsFraction(c: Config, elapsed: real)
    requires elapsed >= 0.0
    ensures 0.0 <= Ramp(c, elapsed) <= 1.0
  {
  }

  /** One smoothing step is slew-limited, stays within the caps and moves toward the command. */
  lemma SmoothIsSafe(c: Config, v: Vel, cmd: Vel, ramp: real, dt: real)
    requires Sensible(c) && Within(v, c.vmax) && Within(cmd, c.vmax) && 0.0 <= ramp <= 1.0 && dt >= 0.0
    ensures var u := Smooth(c, v, cmd, ramp, dt); SlewLimited(c, v, u, dt) && Within(u, c.vmax)
  {
    AxisIsSafe(v.x, cmd.x, ramp, c.alpha, c.linAccel, dt, c.vmax.x);
    AxisIsSafe(v.y, cmd.y, ramp, c.alpha, c.linAccel, dt, c.vmax.y);
    AxisIsSafe(v.w, cmd.w, ramp, c.alpha, c.yawAccel, dt, c.vmax.w);
  }

  lemma AxisIsSafe(prev: real, cmd: real, ramp: real, alpha: real, rate: real, dt: real, cap: real)
    requires 0.0 <= alpha <= 1.0 && 0.0 <= ramp <= 1.0 && rate >= 0.0 && dt >= 0.0
    requires -cap <= prev <= cap && -cap <= cmd <= cap
    ensures var u := Approach(prev, Times(cmd, ramp), alpha, rate, dt);
            -Times(rate, dt) <= u - prev <= Times(rate, dt) && -cap <= u <= cap
  {
    PartOf(ramp, cmd);
    ApproachIsLimited(prev, Times(cmd, ramp), alpha, rate, dt);
  }

  /** What holds between events: the smoother stands at the velocity last sent, at rest while the
      e-stop is latched; flags and stamps say what the history says. */
  ghost predicate Consistent(c: Config, t0: real, es: seq<Event>) {
    var s := After(c, t0, es);
    && s.v == LastSent(c, t0, es)
    && (s.estop ==> s.v == ZERO)
    && s.estop == Latched(es)
    && s.lastCmdT == LastTwist(t0, es) && s.lastTickT == LastTick(t0, es)
    && Within(s.v, c.vmax) && Within(s.cmd, c.vmax)
    && (if |es| == 0 then s.rampT0 == t0 && s.lastTickT == t0 else s.rampT0 <= es[|es| - 1].now && s.lastTickT <= es[|es| - 1].now)
  }

  lemma ClipIsWithin(v: Vel, lim: Vel)
    requires lim.x >= 0.0 && lim.y >= 0.0 && lim.w >= 0.0
    ensures Within(ClipVel(v, lim), lim)
  {
  }

  lemma {:induction false} AlwaysConsistent(c: Config, t0: real, es: seq<Event>)
    requires Sensible(c) && Monotone(t0, es)
    ensures Consistent(c, t0, es)
  {
    if |es| > 0 {
      var front, e := es[..|es| - 1], es[|es| - 1];
      AlwaysConsistent(c, t0, front);
      var s := After(c, t0, front);
      assert s.rampT0 <= e.now && s.lastTickT <= e.now by {
        if |front| > 0 { assert front[|front| - 1] == es[|es| - 2]; }
      }
      assert Sent(c, t0, es, |es| - 1) == React(c, s, e).1;
      ReactConsistent(c, s, e);
    }
  }

  lemma ReactConsistent(c: Config, s: State, e: Event)
    requires Sensible(c) && Within(s.v, c.vmax) && Within(s.cmd, c.vmax) && s.rampT0 <= e.now && s.lastTickT <= e.now
    requires s.estop ==> s.v == ZERO
    ensures var (s', out) := React(c, s, e);
            && s'.v == (if out.Some? then out.value else s.v)
            && (s'.estop ==> s'.v == ZERO)
            && Within(s'.v, c.vmax) && Within(s'.cmd, c.vmax) && s'.rampT0 <= e.now && s'.lastTickT <= e.now
  {
    match e
    case Twist(now, v) => ClipIsWithin(v, c.vmax);
    case EStop(now, engaged) =>
    case Tick(now) =>
      RampIsFraction(c, now - s.rampT0);
      SmoothIsSafe(c, s.v, s.cmd, Ramp(c, now - s.rampT0), EffectiveDt(now - s.lastTickT));
  }

  /** Safety of every run. Whatever is sent is within the caps. A tick always sends; it sends zero
      while the e-stop is latched or no command arrived for longer than the timeout, and
      otherwise departs from the velocity last sent by at most the acceleration limits allow
      over the time since the previous tick. */
  lemma RunIsSafe(c: Config, t0: real, es: seq<Event>, i: nat)
    requires Sensible(c) && Monotone(t0, es) && i < |es|
    ensures var out := Sent(c, t0, es, i);
            && (out.Some? ==> Within(out.value, c.vmax))
            && (es[i].Tick? ==>
                  && out.Some?
                  && (if Latched(es[..i]) || es[i].now - LastTwist(t0, es[..i]) > c.cmdTimeout
                      then out.value == ZERO
                      else SlewLimited(c, LastSent(c, t0, es[..i]), out.value,
                                       EffectiveDt(es[i].now - LastTick(t0, es[..i])))))
            && (es[i].EStop? && es[i].engaged && !Latched(es[..i]) ==> out == Some(ZERO))
            && (es[i].Twist? || (es[i].EStop? && (!es[i].engaged || Latched(es[..i]))) ==> out == None)
  {
    AlwaysConsistent(c, t0, es[..i]);
    var s, e := After(c, t0, es[..i]), es[i];
    assert s.rampT0 <= e.now && s.lastTickT <= e.now by {
      if i > 0 { assert es[..i][i - 1] == es[i - 1]; }
    }
    ReactConsistent(c, s, e);
    if e.Tick? {
      RampIsFraction(c, e.now - s.rampT0);
      SmoothIsSafe(c, s.v, s.cmd, Ramp(c, e.now - s.rampT0), EffectiveDt(e.now - s.lastTickT));
    }
  }

  /** Tick i of the run smooths: neither the latch nor the watchdog applies. */
  predicate Smooths(c: Config, t0: real, es: seq<Event>, i: nat)
    requires i < |es|
  {
    es[i].Tick? && !Latched(es[..i]) && es[i].now - LastTwist(t0, es[..i]) <= c.cmdTimeout
  }

  /** An axis that does not move whatever the interval: no low-pass step to take, or no acceleration. */
  predicate Still(alpha: real, rate: real, prev: real, target: real) {
    Times(alpha, target - prev) == 0.0 || rate == 0.0
  }

  predicate AllStill(c: Config, v: Vel, target: Vel) {
    && Still(c.alpha, c.linAccel, v.x, target.x)
    && Still(c.alpha, c.linAccel, v.y, target.y)
    && Still(c.alpha, c.yawAccel, v.w, target.w)
  }

  lemma AxisMovesOrIsStill(prev: real, target: real, alpha: real, rate: real, dt: real)
    requires rate >= 0.0 && dt > 0.0
    ensures Approach(prev, target, alpha, rate, dt) == prev <==> Still(alpha, rate, prev, target)
  {
    var lim := Times(rate, dt);
    if rate > 0.0 { assert lim > 0.0 by { ProductPositive(rate, dt); } }
  }

  /** A slew bound over no time at all allows no change. */
  lemma NoTimeNoChange(c: Config, a: Vel, b: Vel)
    ensures SlewLimited(c, a, b, 0.0) <==> a == b
  {
    assert Times(c.linAccel, 0.0) == 0.0 && Times(c.yawAccel, 0.0) == 0.0;
  }

  /** Exactly when the change of a smoothing tick is bounded by the bare interval since the previous
      tick: time has passed, or every axis would stay where it is anyway. A tick that took no time
      moves any other axis by up to a millisecond's worth. */
  lemma BareIntervalIsExact(c: Config, t0: real, es: seq<Event>, i: nat, u: Vel, r: real)
    requires Sensible(c) && Monotone(t0, es) && i < |es| && Smooths(c, t0, es, i)
    requires Asked(c, t0, es[..i], u) && RampDone(c, es[i].now - LastStop(c, t0, es[..i]), r)
    ensures var dt, last, out := es[i].now - LastTick(t0, es[..i]), LastSent(c, t0, es[..i]), Sent(c, t0, es, i);
            out.Some? && (SlewLimited(c, last, out.value, dt) <==> dt > 0.0 || AllStill(c, last, Scale(u, r)))
  {
    AlwaysConsistent(c, t0, es[..i]);
    RunIsSafe(c, t0, es, i);
    SmoothingTick(c, t0, es, i, u, r);
    var s, now := After(c, t0, es[..i]), es[i].now;
    assert s.lastTickT <= now by {
      if i > 0 { assert es[..i][i - 1] == es[i - 1]; }
    }
    if now - s.lastTickT == 0.0 {
      var target := Scale(u, r);
      AxisMovesOrIsStill(s.v.x, target.x, c.alpha, c.linAccel, 0.001);
      AxisMovesOrIsStill(s.v.y, target.y, c.alpha, c.linAccel, 0.001);
      AxisMovesOrIsStill(s.v.w, target.w, c.alpha, c.yawAccel, 0.001);
      NoTimeNoChange(c, s.v, Sent(c, t0, es, i).value);
    }
  }

  /** A run in which the bare bound fails: the tick comes with no time passed, and moves. */
  lemma ZeroIntervalStillMoves(c: Config, t0: real)
    requires Sensible(c) && c.vmax.x == 1.0 && c.linAccel == 1.0 && c.alpha == 1.0 && c.startupRamp == 0.0 && c.cmdTimeout == 1.0
    ensures var es := [Twist(t0, Vel(1.0, 0.0, 0.0)), Tick(t0)];
            Monotone(t0, es) && Sent(c, t0, es, 1) == Some(Vel(0.001, 0.0, 0.0)) && LastSent(c, t0, es[..1]) == ZERO
  {
    var es := [Twist(t0, Vel(1.0, 0.0, 0.0)), Tick(t0)];
    assert es[..1] == [es[0]] && es[..1][..0] == [];
    assert After(c, t0, es[..1]) == React(c, After(c, t0, []), es[0]).0;
  }
}
