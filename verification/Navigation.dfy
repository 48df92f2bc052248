/** The navigation state machine of the MPC node: watchdogs, goal hold and the debounced
    security mode. */
module Navigation {
  import opened Wrappers

  // ---- Security mode ----

  datatype SecParams = SecParams(enable: bool, radius: real, engageCycles: int, clearCycles: int)

  datatype SecState = SecState(mode: bool, engage: int, clear: int)

  /** Whether a reading shows an obstacle within the security radius. */
  predicate IsNear(p: SecParams, dists: Option<seq<real>>) {
    p.enable && dists.Some? && exists i :: 0 <= i < |dists.value| && dists.value[i] <= p.radius
  }

  /** One security check, given whether the reading is near. */
  function SecStep(p: SecParams, s: SecState, near: bool): SecState {
    if near then
      SecState(s.mode || s.engage + 1 >= p.engageCycles, s.engage + 1, 0)
    else if s.mode then
      SecState(s.clear + 1 < p.clearCycles, 0, s.clear + 1)
    else
      SecState(false, 0, s.clear)
  }

  const SEC_OFF := SecState(false, 0, 0)

  function SecAfter(p: SecParams, h: seq<bool>): SecState {
    if |h| == 0 then SEC_OFF else SecStep(p, SecAfter(p, h[..|h| - 1]), h[|h| - 1])
  }

  /** The n readings before position i all equal near. */
  ghost predicate RunEnding(h: seq<bool>, near: bool, n: int, i: int) {
    0 <= n <= i <= |h| && forall j :: i - n <= j < i ==> h[j] == near
  }

  /** Hysteresis by the history alone: at some point engageCycles consecutive readings were near,
      and since then no clearCycles consecutive readings were clean. */
  ghost predicate OnByHistory(p: SecParams, h: seq<bool>) {
    exists i :: RunEnding(h, true, p.engageCycles, i) && NotClearedSince(p, h, i)
  }

  ghost predicate NotClearedSince(p: SecParams, h: seq<bool>, i: int) {
    forall k :: i < k <= |h| ==> !RunEnding(h, false, p.clearCycles, k)
  }

  /** Length of the run of equal readings at the end. */
  function Trailing(h: seq<bool>, near: bool): nat {
    if |h| > 0 && h[|h| - 1] == near then Trailing(h[..|h| - 1], near) + 1 else 0
  }

  lemma {:induction false} TrailingIsRun(h: seq<bool>, near: bool, n: int)
    requires n >= 0
    ensures RunEnding(h, near, n, |h|) <==> n <= Trailing(h, near)
  {
    if n > 0 && |h| > 0 {
      var front := h[..|h| - 1];
      TrailingIsRun(front, near, n - 1);
      assert RunEnding(h, near, n, |h|) <==> h[|h| - 1] == near && RunEnding(front, near, n - 1, |front|);
    }
  }

  /** Positions inside the old history see the same runs in the longer one. */
  lemma RunsKept(h: seq<bool>, b: bool, near: bool, n: int, i: int)
    requires i <= |h|
    ensures RunEnding(h, near, n, i) <==> RunEnding(h + [b], near, n, i)
  {
    var g := h + [b];
    assert forall j :: 0 <= j < |h| ==> g[j] == h[j];
    if RunEnding(g, near, n, i) {
      forall j | i - n <= j < i ensures h[j] == near { assert g[j] == h[j]; }
    }
  }

  /** The mode follows the history exactly; the counters are the trailing runs. */
  lemma {:induction false} HysteresisIsExact(p: SecParams, h: seq<bool>)
    requires p.engageCycles >= 1 && p.clearCycles >= 1
    ensures var s := SecAfter(p, h);
            && (s.mode <==> OnByHistory(p, h))
            && s.engage == Trailing(h, true)
            && (s.mode ==> s.clear == Trailing(h, false))
  {
    if |h| == 0 {
      assert !OnByHistory(p, h);
    } else {
      var front, b := h[..|h| - 1], h[|h| - 1];
      assert h == front + [b];
      HysteresisIsExact(p, front);
      TrailingIsRun(h, true, p.engageCycles);
      TrailingIsRun(h, false, p.clearCycles);
      var s := SecAfter(p, front);
      if OnByHistory(p, h) {
        var i :| RunEnding(h, true, p.engageCycles, i) && NotClearedSince(p, h, i);
        if i <= |front| {
          RunsKept(front, b, true, p.engageCycles, i);
          forall k | i < k <= |front| ensures !RunEnding(front, false, p.clearCycles, k) {
            RunsKept(front, b, false, p.clearCycles, k);
          }
          assert NotClearedSince(p, front, i);
        }
      }
      if SecAfter(p, h).mode {
        if Trailing(h, true) >= p.engageCycles {
          assert RunEnding(h, true, p.engageCycles, |h|) && NotClearedSince(p, h, |h|);
        } else {
          var i :| RunEnding(front, true, p.engageCycles, i) && NotClearedSince(p, front, i);
          RunsKept(front, b, true, p.engageCycles, i);
          forall k | i < k <= |h| ensures !RunEnding(h, false, p.clearCycles, k) {
            if k <= |front| { RunsKept(front, b, false, p.clearCycles, k); }
          }
          assert NotClearedSince(p, h, i);
        }
      }
    }
  }

  // ---- Navigation state ----

  datatype Nav = Idle | Navigating | Aligning | GoalReached | Security | Stopped

  datatype Pose = Pose(x: real, y: real, yaw: real)

  /** Parameters; norm and wrap are the planar length and the angle wrapping of the platform. */
  datatype Config = Config(sec: SecParams, goalRadius: real, headingTol: real, requireHeading: bool,
                           dupXyTol: real, dupYawTol: real, odomTimeout: real, pathTimeout: real,
                           norm: (real, real) -> real, wrap: real -> real)

  datatype State = State(nav: Nav, sec: SecState, goal: Option<Pose>, pose: Option<Pose>, lastOdom: Option<real>,
                         path: bool, lastPath: Option<real>)

  const INITIAL := State(Idle, SEC_OFF, None, None, None, false, None)

  /** Inputs; a solve carries this cycle's obstacle distances and whatever the solver returns. */
  datatype Event =
    | GoalMsg(goal: Pose)
    | PoseMsg(now: real, pose: Pose)
    | PathMsg(now: real, nonEmpty: bool)
    | Solve(now: real, dists: Option<seq<real>>, command: Option<(real, real, real)>)

  datatype Published = Nothing | Zero | Align(yawErr: real) | Command(v: (real, real, real))

  function AbsReal(x: real): real { if x < 0.0 then -x else x }

  predicate SameGoal(c: Config, a: Pose, b: Pose) {
    c.norm(a.x - b.x, a.y - b.y) <= c.dupXyTol && AbsReal(c.wrap(a.yaw - b.yaw)) <= c.dupYawTol
  }

  predicate Duplicate(c: Config, s: State, goal: Pose) { s.goal.Some? && SameGoal(c, goal, s.goal.value) }

  predicate PoseFresh(c: Config, s: State, now: real) {
    s.pose.Some? && s.lastOdom.Some? && now - s.lastOdom.value <= c.odomTimeout
  }

  predicate PathFresh(c: Config, s: State, now: real) {
    s.path && s.lastPath.Some? && now - s.lastPath.value <= c.pathTimeout
  }

  predicate AtGoal(c: Config, s: State)
    requires s.pose.Some?
  {
    s.goal.Some? && c.norm(s.pose.value.x - s.goal.value.x, s.pose.value.y - s.goal.value.y) <= c.goalRadius
  }

  function YawError(c: Config, s: State): real
    requires s.goal.Some? && s.pose.Some?
  {
    c.wrap(s.goal.value.yaw - s.pose.value.yaw)
  }

  predicate Misaligned(c: Config, s: State)
    requires s.goal.Some? && s.pose.Some?
  {
    c.requireHeading && AbsReal(YawError(c, s)) > c.headingTol
  }

  /** Whether a solve gets past the watchdogs and the goal hold to the security check. */
  predicate ReachesCheck(c: Config, s: State, now: real) {
    && PoseFresh(c, s, now)
    && (s.goal.Some? ==> s.nav != GoalReached && !AtGoal(c, s))
    && PathFresh(c, s, now)
  }

  function SolveStep(c: Config, s: State, now: real, dists: Option<seq<real>>, command: Option<(real, real, real)>): (State, Published) {
    if !PoseFresh(c, s, now) then (s.(nav := Stopped), Zero)
    else if s.goal.Some? && s.nav == GoalReached then (s, Zero)
    else if AtGoal(c, s) then
      if Misaligned(c, s) then (s.(nav := Aligning), Align(YawError(c, s))) else (s.(nav := GoalReached), Zero)
    else if !PathFresh(c, s, now) then (s.(nav := Stopped), Zero)
    else
      var nav := if s.goal.Some? && s.nav != Security then Navigating else s.nav;
      var sec := SecStep(c.sec, s.sec, IsNear(c.sec, dists));
      (s.(nav := if sec.mode then Security else if s.sec.mode then Navigating else nav, sec := sec),
       if command.Some? then Command(command.value) else Nothing)
  }

  function React(c: Config, s: State, e: Event): (State, Published) {
    match e
    case GoalMsg(goal) => (if Duplicate(c, s, goal) then s else s.(goal := Some(goal), nav := Navigating), Nothing)
    case PoseMsg(now, pose) => (s.(pose := Some(pose), lastOdom := Some(now)), Nothing)
    case PathMsg(now, nonEmpty) => (s.(path := nonEmpty, lastPath := Some(now)), Nothing)
    case Solve(now, dists, command) => SolveStep(c, s, now, dists, command)
  }

  class MpcNode {
    const cfg: Config
    var securityMode: bool
    var engageCount: int
    var clearCount: int
    var nav: Nav
    var goal: Option<Pose>
    var pose: Option<Pose>
    var lastOdom: Option<real>
    var path: bool
    var lastPath: Option<real>

    ghost function View(): State
      reads this
    {
      State(nav, SecState(securityMode, engageCount, clearCount), goal, pose, lastOdom, path, lastPath)
    }

    constructor (cfg: Config)
      ensures View() == INITIAL && this.cfg == cfg
    {
      this.cfg := cfg;
      securityMode, engageCount, clearCount, nav := false, 0, 0, Idle;
      goal, pose, lastOdom, path, lastPath := None, None, None, false, None;
    }

    method OnGoal(g: Pose)
      modifies this
      ensures (View(), Nothing) == React(cfg, old(View()), GoalMsg(g))
    {
      if goal.Some? && cfg.norm(g.x - goal.value.x, g.y - goal.value.y) <= cfg.dupXyTol
         && AbsReal(cfg.wrap(g.yaw - goal.value.yaw)) <= cfg.dupYawTol { return; }
      goal := Some(g);
      nav := Navigating;
    }

    method OnPose(now: real, p: Pose)
      modifies this
      ensures (View(), Nothing) == React(cfg, old(View()), PoseMsg(now, p))
    {
      lastOdom, pose := Some(now), Some(p);
    }

    method OnPath(now: real, nonEmpty: bool)
      modifies this
      ensures (View(), Nothing) == React(cfg, old(View()), PathMsg(now, nonEmpty))
    {
      lastPath, path := Some(now), nonEmpty;
    }

    /** The debounced security check. */
    method SecurityEscape(dists: Option<seq<real>>) returns (engaged: bool)
      modifies this`securityMode, this`engageCount, this`clearCount
      ensures View() == old(View()).(sec := SecStep(cfg.sec, old(View()).sec, IsNear(cfg.sec, dists)))
      ensures engaged == securityMode
    {
      if !cfg.sec.enable || dists.None? || |dists.value| == 0 {
        CountClean();
        return securityMode;
      }
      var near := false;
      for i := 0 to |dists.value|
        invariant near <==> exists j :: 0 <= j < i && dists.value[j] <= cfg.sec.radius
        invariant View() == old(View())
      {
        if dists.value[i] <= cfg.sec.radius { near := true; }
      }
      if near {
        engageCount := engageCount + 1;
        clearCount := 0;
        if engageCount >= cfg.sec.engageCycles { securityMode := true; }
      } else {
        CountClean();
      }
      engaged := securityMode;
    }

    method CountClean()
      modifies this`securityMode, this`engageCount, this`clearCount
      ensures View() == old(View()).(sec := SecStep(cfg.sec, old(View()).sec, false))
    {
      engageCount := 0;
      if securityMode {
        clearCount := clearCount + 1;
        if clearCount >= cfg.sec.clearCycles { securityMode := false; }
      }
    }

    method OnSolve(now: real, dists: Option<seq<real>>, command: Option<(real, real, real)>) returns (out: Published)
      modifies this
      ensures (View(), out) == React(cfg, old(View()), Solve(now, dists, command))
    {
      if pose.None? || lastOdom.None? || now - lastOdom.value > cfg.odomTimeout {
        nav := Stopped;
        return Zero;
      }
      if goal.Some? {
        if nav == GoalReached { return Zero; }
        if cfg.norm(pose.value.x - goal.value.x, pose.value.y - goal.value.y) <= cfg.goalRadius {
          var yawErr := cfg.wrap(goal.value.yaw - pose.value.yaw);
          if cfg.requireHeading && AbsReal(yawErr) > cfg.headingTol {
            nav := Aligning;
            return Align(yawErr);
          }
          nav := GoalReached;
          return Zero;
        }
      }
      if !path || lastPath.None? || now - lastPath.value > cfg.pathTimeout {
        nav := Stopped;
        return Zero;
      }
      if goal.Some? && nav != Security { nav := Navigating; }
      var prev := securityMode;
      var engaged := SecurityEscape(dists);
      if engaged {
        nav := Security;
      } else if prev {
        nav := Navigating;
      }
      out := if command.Some? then Command(command.value) else Nothing;
    }
  }

  // ---- Whole runs ----

  function After(c: Config, s: State, es: seq<Event>): State {
    if |es| == 0 then s else React(c, After(c, s, es[..|es| - 1]), es[|es| - 1]).0
  }

  function Output(c: Config, s: State, es: seq<Event>, i: nat): Published
    requires i < |es|
  {
    React(c, After(c, s, es[..i]), es[i]).1
  }

  // ---- What a run has been told, by its history alone ----

  /** The latest pose and its arrival time. */
  function LastPose(es: seq<Event>): Option<(real, Pose)> {
    if |es| == 0 then None
    else if es[|es| - 1].PoseMsg? then Some((es[|es| - 1].now, es[|es| - 1].pose))
    else LastPose(es[..|es| - 1])
  }

  /** The arrival time of the latest path message and whether it held a path. */
  function LastPath(es: seq<Event>): Option<(real, bool)> {
    if |es| == 0 then None
    else if es[|es| - 1].PathMsg? then Some((es[|es| - 1].now, es[|es| - 1].nonEmpty))
    else LastPath(es[..|es| - 1])
  }

  /** The latest goal that was not a repetition of the goal before it. */
  function AcceptedGoal(c: Config, es: seq<Event>): Option<Pose> {
    if |es| == 0 then None
    else
      var before, e := AcceptedGoal(c, es[..|es| - 1]), es[|es| - 1];
      if !e.GoalMsg? || Repeats(c, before, e.goal) then before else Some(e.goal)
  }

  /** The goal lies within both duplicate tolerances of the one before it. */
  predicate Repeats(c: Config, before: Option<Pose>, goal: Pose) {
    && before.Some?
    && c.norm(goal.x - before.value.x, goal.y - before.value.y) <= c.dupXyTol
    && -c.dupYawTol <= c.wrap(goal.yaw - before.value.yaw) <= c.dupYawTol
  }

  /** A pose arrived no longer ago than its time-out. */
  predicate PoseInTime(c: Config, es: seq<Event>, now: real) {
    LastPose(es).Some? && now - LastPose(es).value.0 <= c.odomTimeout
  }

  /** The latest path message held a path and arrived no longer ago than its time-out. */
  predicate PathInTime(c: Config, es: seq<Event>, now: real) {
    LastPath(es).Some? && LastPath(es).value.1 && now - LastPath(es).value.0 <= c.pathTimeout
  }

  /** The latest pose lies within the radius of the accepted goal. */
  predicate WithinGoal(c: Config, es: seq<Event>) {
    && LastPose(es).Some? && AcceptedGoal(c, es).Some?
    && var (p, g) := (LastPose(es).value.1, AcceptedGoal(c, es).value);
       c.norm(p.x - g.x, p.y - g.y) <= c.goalRadius
  }

  /** Heading asked for and missed by more than the tolerance. */
  predicate OffHeading(c: Config, es: seq<Event>)
    requires LastPose(es).Some? && AcceptedGoal(c, es).Some?
  {
    var err := c.wrap(AcceptedGoal(c, es).value.yaw - LastPose(es).value.1.yaw);
    c.requireHeading && (err > c.headingTol || err < -c.headingTol)
  }

  /** Which event changes what the node has been told. */
  lemma ToldStep(c: Config, s: State, e: Event)
    ensures var r := React(c, s, e).0;
            && r.goal == (if e.GoalMsg? && !Duplicate(c, s, e.goal) then Some(e.goal) else s.goal)
            && r.pose == (if e.PoseMsg? then Some(e.pose) else s.pose)
            && r.lastOdom == (if e.PoseMsg? then Some(e.now) else s.lastOdom)
            && r.path == (if e.PathMsg? then e.nonEmpty else s.path)
            && r.lastPath == (if e.PathMsg? then Some(e.now) else s.lastPath)
  {
  }

  lemma DuplicateRepeats(c: Config, s: State, goal: Pose)
    ensures Duplicate(c, s, goal) <==> Repeats(c, s.goal, goal)
  {
  }

  lemma {:induction false} StateFollowsHistory(c: Config, es: seq<Event>)
    ensures var s := After(c, INITIAL, es);
            && s.goal == AcceptedGoal(c, es)
            && (match LastPose(es)
                case None => s.pose == None && s.lastOdom == None
                case Some(p) => s.pose == Some(p.1) && s.lastOdom == Some(p.0))
            && (match LastPath(es)
                case None => !s.path && s.lastPath == None
                case Some(p) => s.path == p.1 && s.lastPath == Some(p.0))
  {
    if |es| > 0 {
      var front, e := es[..|es| - 1], es[|es| - 1];
      StateFollowsHistory(c, front);
      ToldStep(c, After(c, INITIAL, front), e);
      if e.GoalMsg? { DuplicateRepeats(c, After(c, INITIAL, front), e.goal); }
    }
  }

  /** Event j is a solve that finds the robot arrived: pose in time, within the goal radius and, if
      asked for, on heading. */
  ghost predicate ArrivalAt(c: Config, es: seq<Event>, j: int) {
    && 0 <= j < |es| && es[j].Solve?
    && PoseInTime(c, es[..j], es[j].now) && WithinGoal(c, es[..j]) && !OffHeading(c, es[..j])
  }

  /** Event k is a goal that does not repeat the one before it, or a solve without a pose in time. */
  ghost predicate ReleaseAt(c: Config, es: seq<Event>, k: int) {
    && 0 <= k < |es|
    && ((es[k].GoalMsg? && !Repeats(c, AcceptedGoal(c, es[..k]), es[k].goal))
        || (es[k].Solve? && !PoseInTime(c, es[..k], es[k].now)))
  }

  ghost predicate HeldSince(c: Config, es: seq<Event>, j: int) {
    ArrivalAt(c, es, j) && forall k :: j < k < |es| ==> !ReleaseAt(c, es, k)
  }

  /** The robot has arrived, and nothing has released it since. */
  ghost predicate Held(c: Config, es: seq<Event>) {
    exists j :: HeldSince(c, es, j)
  }

  lemma PrefixEvents(c: Config, es: seq<Event>, k: int)
    requires |es| > 0 && k < |es| - 1
    ensures ArrivalAt(c, es, k) <==> ArrivalAt(c, es[..|es| - 1], k)
    ensures ReleaseAt(c, es, k) <==> ReleaseAt(c, es[..|es| - 1], k)
  {
    if k >= 0 { assert es[..|es| - 1][..k] == es[..k]; }
  }

  lemma HeldStep(c: Config, es: seq<Event>)
    requires |es| > 0
    ensures var n := |es| - 1;
            Held(c, es) <==> ArrivalAt(c, es, n) || (Held(c, es[..n]) && !ReleaseAt(c, es, n))
  {
    var n := |es| - 1;
    var front := es[..n];
    if Held(c, es) && !ArrivalAt(c, es, n) {
      var j :| HeldSince(c, es, j);
      PrefixEvents(c, es, j);
      forall k | j < k < n ensures !ReleaseAt(c, front, k) { PrefixEvents(c, es, k); }
      assert HeldSince(c, front, j);
    }
    if Held(c, front) && !ReleaseAt(c, es, n) {
      var j :| HeldSince(c, front, j);
      PrefixEvents(c, es, j);
      forall k | j < k <= n ensures !ReleaseAt(c, es, k) { if k < n { PrefixEvents(c, es, k); } }
      assert HeldSince(c, es, j);
    }
    if ArrivalAt(c, es, n) { assert HeldSince(c, es, n); }
  }

  /** Over every run the node is in GOAL_REACHED exactly when the robot has arrived and neither a new
      goal nor a solve without a pose in time has come since. */
  lemma {:induction false} ReachedIsHeld(c: Config, es: seq<Event>)
    ensures After(c, INITIAL, es).nav == GoalReached <==> Held(c, es)
  {
    if |es| > 0 {
      ReachedIsHeld(c, es[..|es| - 1]);
      HeldHasGoal(c, es[..|es| - 1]);
      StateFollowsHistory(c, es[..|es| - 1]);
      HeldStep(c, es);
    }
  }

  /** A solve after the history h gets to the security check: its pose and path are in time, and there
      is no goal that is held or within reach. */
  ghost predicate Checks(c: Config, h: seq<Event>, now: real) {
    PoseInTime(c, h, now) && PathInTime(c, h, now) && !Held(c, h) && !WithinGoal(c, h)
  }

  /** What is published over every run, by the history before each event: nothing outside a solve;
      zero without a pose in time or while held; at the goal the heading error, or zero on heading;
      zero without a path in time; and otherwise exactly the command of the solver. */
  lemma PublishedByHistory(c: Config, es: seq<Event>, i: nat)
    requires i < |es|
    ensures var out, h, e := Output(c, INITIAL, es, i), es[..i], es[i];
            && (!e.Solve? ==> out == Nothing)
            && (e.Solve? && (!PoseInTime(c, h, e.now) || Held(c, h)) ==> out == Zero)
            && (e.Solve? && PoseInTime(c, h, e.now) && !Held(c, h) && WithinGoal(c, h) ==>
                  out == if OffHeading(c, h) then Align(c.wrap(AcceptedGoal(c, h).value.yaw - LastPose(h).value.1.yaw)) else Zero)
            && (e.Solve? && !PathInTime(c, h, e.now) && !WithinGoal(c, h) ==> out == Zero)
            && (e.Solve? && Checks(c, h, e.now) ==>
                  out == match e.command case None => Nothing case Some(v) => Command(v))
  {
    StateFollowsHistory(c, es[..i]);
    ReachedIsHeld(c, es[..i]);
    HeldHasGoal(c, es[..i]);
  }

  /** The readings that the security checks of the run have seen: near when security is enabled and
      some distance is not beyond the radius. */
  ghost function Readings(c: Config, es: seq<Event>): seq<bool> {
    if |es| == 0 then []
    else
      var front, e := es[..|es| - 1], es[|es| - 1];
      if e.Solve? && Checks(c, front, e.now) then Readings(c, front) + [c.sec.enable && !AllBeyond(c, e.dists)]
      else Readings(c, front)
  }

  ghost predicate AllBeyond(c: Config, dists: Option<seq<real>>) {
    dists.Some? ==> forall i :: 0 <= i < |dists.value| ==> c.sec.radius < dists.value[i]
  }

  lemma SecAfterNext(p: SecParams, h: seq<bool>, b: bool)
    ensures SecAfter(p, h + [b]) == SecStep(p, SecAfter(p, h), b)
  {
    var g := h + [b];
    assert g[..|g| - 1] == h;
  }

  /** The security state changes only in a solve that reaches the check. */
  lemma SecurityStep(c: Config, s: State, e: Event)
    ensures React(c, s, e).0.sec ==
            if e.Solve? && ReachesCheck(c, s, e.now) then SecStep(c.sec, s.sec, IsNear(c.sec, e.dists)) else s.sec
  {
  }

  lemma {:induction false} SecurityFollowsReadings(c: Config, es: seq<Event>)
    ensures After(c, INITIAL, es).sec == SecAfter(c.sec, Readings(c, es))
  {
    if |es| > 0 {
      var front, e := es[..|es| - 1], es[|es| - 1];
      SecurityFollowsReadings(c, front);
      SecurityStep(c, After(c, INITIAL, front), e);
      if e.Solve? {
        ChecksByHistory(c, front, e.now);
        SecAfterNext(c.sec, Readings(c, front), IsNear(c.sec, e.dists));
      }
    }
  }

  lemma ChecksByHistory(c: Config, es: seq<Event>, now: real)
    ensures ReachesCheck(c, After(c, INITIAL, es), now) <==> Checks(c, es, now)
  {
    StateFollowsHistory(c, es);
    ReachedIsHeld(c, es);
    HeldHasGoal(c, es);
  }

  lemma {:induction false} HeldHasGoal(c: Config, es: seq<Event>)
    ensures Held(c, es) ==> AcceptedGoal(c, es).Some?
  {
    if |es| > 0 {
      HeldHasGoal(c, es[..|es| - 1]);
      HeldStep(c, es);
    }
  }

  /** In every run security mode is on exactly as hysteresis over the readings dictates, and the
      SECURITY state implies that it is on. */
  lemma {:induction false} SecurityIsHysteresis(c: Config, es: seq<Event>)
    requires c.sec.engageCycles >= 1 && c.sec.clearCycles >= 1
    ensures After(c, INITIAL, es).sec.mode <==> OnByHistory(c.sec, Readings(c, es))
    ensures After(c, INITIAL, es).nav == Security ==> OnByHistory(c.sec, Readings(c, es))
  {
    SecurityFollowsReadings(c, es);
    HysteresisIsExact(c.sec, Readings(c, es));
    if |es| > 0 { SecurityIsHysteresis(c, es[..|es| - 1]); }
  }

  /** The navigation state over every run, by the history before the last event. Messages change it only
      by a goal that is no repetition. A solve that reaches the check ends in SECURITY exactly when the
      hysteresis over the readings is on, and otherwise in NAVIGATING if there is a goal or security
      has just ended. */
  lemma StateByHistory(c: Config, h: seq<Event>, e: Event)
    requires c.sec.engageCycles >= 1 && c.sec.clearCycles >= 1
    ensures var was, nav := After(c, INITIAL, h).nav, After(c, INITIAL, h + [e]).nav;
            && (e.PoseMsg? || e.PathMsg? ==> nav == was)
            && (e.GoalMsg? ==> nav == if Repeats(c, AcceptedGoal(c, h), e.goal) then was else Navigating)
            && (e.Solve? && !PoseInTime(c, h, e.now) ==> nav == Stopped)
            && (e.Solve? && PoseInTime(c, h, e.now) && Held(c, h) ==> nav == GoalReached)
            && (e.Solve? && PoseInTime(c, h, e.now) && !Held(c, h) && WithinGoal(c, h) ==>
                  nav == if OffHeading(c, h) then Aligning else GoalReached)
            && (e.Solve? && PoseInTime(c, h, e.now) && !Held(c, h) && !WithinGoal(c, h) && !PathInTime(c, h, e.now) ==>
                  nav == Stopped)
            && (e.Solve? && Checks(c, h, e.now) ==> nav == Navigated(c, h, e, was))
  {
    AfterNext(c, INITIAL, h, e);
    StateFollowsHistory(c, h);
    ReachedIsHeld(c, h);
    HeldHasGoal(c, h);
    if e.Solve? && Checks(c, h, e.now) {
      ChecksByHistory(c, h, e.now);
      SecurityIsHysteresis(c, h);
      SecurityIsHysteresis(c, h + [e]);
      CheckedStep(c, After(c, INITIAL, h), e);
    } else if e.GoalMsg? {
      DuplicateRepeats(c, After(c, INITIAL, h), e.goal);
    }
  }

  lemma CheckedStep(c: Config, s: State, e: Event)
    requires e.Solve? && ReachesCheck(c, s, e.now) && (s.nav == Security ==> s.sec.mode)
    ensures var r := React(c, s, e).0;
            r.nav == if r.sec.mode then Security else if s.goal.Some? || s.sec.mode then Navigating else s.nav
  {
  }

  /** The state after a solve that reaches the check. */
  ghost function Navigated(c: Config, h: seq<Event>, e: Event, was: Nav): Nav {
    if OnByHistory(c.sec, Readings(c, h + [e])) then Security
    else if AcceptedGoal(c, h).Some? || OnByHistory(c.sec, Readings(c, h)) then Navigating
    else was
  }

  /** SECURITY is entered: after a solve that reaches the check the node is in SECURITY if and only if
      engageCycles consecutive readings were near and no clearCycles consecutive ones clean since. */
  lemma SecurityIsEntered(c: Config, h: seq<Event>, e: Event)
    requires c.sec.engageCycles >= 1 && c.sec.clearCycles >= 1 && e.Solve? && Checks(c, h, e.now)
    ensures After(c, INITIAL, h + [e]).nav == Security <==> OnByHistory(c.sec, Readings(c, h + [e]))
  {
    StateByHistory(c, h, e);
    SecurityIsHysteresis(c, h);
  }

  ghost predicate QuietSince(c: Config, es: seq<Event>, j: int) {
    forall k :: 0 <= j <= k < |es| && es[k].Solve? ==> Output(c, INITIAL, es, k) == Zero
  }

  lemma HeldBefore(c: Config, es: seq<Event>, j: int, n: int)
    requires HeldSince(c, es, j) && j < n <= |es|
    ensures HeldSince(c, es[..n], j)
  {
    assert es[..n][..j] == es[..j];
    forall k | j < k < n ensures !ReleaseAt(c, es[..n], k) {
      assert es[..n][..k] == es[..k] && !ReleaseAt(c, es, k);
    }
  }

  lemma {:induction false} GoalKept(c: Config, es: seq<Event>, j: int)
    requires HeldSince(c, es, j)
    ensures AcceptedGoal(c, es) == AcceptedGoal(c, es[..j])
  {
    var n := |es| - 1;
    if j < n {
      HeldBefore(c, es, j, n);
      GoalKept(c, es[..n], j);
      assert es[..n][..j] == es[..j] && !ReleaseAt(c, es, n);
    }
  }

  /** Over every run, a node in GOAL_REACHED did arrive: some solve found the robot arrived, nothing has
      released it since, the goal is the same, and every solve since published zero. */
  lemma ArrivalIsGenuine(c: Config, es: seq<Event>) returns (j: int)
    requires After(c, INITIAL, es).nav == GoalReached
    ensures HeldSince(c, es, j) && AcceptedGoal(c, es) == AcceptedGoal(c, es[..j]) && QuietSince(c, es, j)
  {
    ReachedIsHeld(c, es);
    j :| HeldSince(c, es, j);
    GoalKept(c, es, j);
    forall k | j <= k < |es| && es[k].Solve? ensures Output(c, INITIAL, es, k) == Zero {
      PublishedByHistory(c, es, k);
      if j < k {
        HeldBefore(c, es, j, k);
        assert !ReleaseAt(c, es, k);
      }
    }
  }

  /** Something ends the hold: a goal that is not a duplicate, or a solve that finds the pose stale. */
  predicate EndsHold(c: Config, s: State, e: Event) {
    (e.GoalMsg? && !Duplicate(c, s, e.goal)) || (e.Solve? && !PoseFresh(c, s, e.now))
  }

  /** One event keeps the hold exactly when it is not one of those two. */
  lemma HoldStep(c: Config, s: State, e: Event)
    requires s.nav == GoalReached && s.goal.Some?
    ensures React(c, s, e).0.nav == GoalReached <==> !EndsHold(c, s, e)
    ensures React(c, s, e).0.goal.Some?
    ensures e.Solve? ==> React(c, s, e).1 == Zero
  {
  }

  ghost predicate Uninterrupted(c: Config, s: State, es: seq<Event>, n: nat) {
    forall i :: 0 <= i < n && i < |es| ==> !EndsHold(c, After(c, s, es[..i]), es[i])
  }

  lemma {:induction false} HoldUpTo(c: Config, s: State, es: seq<Event>, n: nat)
    requires s.nav == GoalReached && s.goal.Some? && n <= |es| && Uninterrupted(c, s, es, n)
    ensures After(c, s, es[..n]).nav == GoalReached && After(c, s, es[..n]).goal.Some?
  {
    if n > 0 {
      HoldUpTo(c, s, es, n - 1);
      assert es[..n][..n - 1] == es[..n - 1];
      HoldStep(c, After(c, s, es[..n - 1]), es[n - 1]);
    } else {
      assert es[..0] == [];
    }
  }

  /** The goal hold over a run: as long as nothing ends it, every solve publishes zero and the
      state stays GOAL_REACHED. */
  lemma HoldLasts(c: Config, s: State, es: seq<Event>)
    requires s.nav == GoalReached && s.goal.Some? && Uninterrupted(c, s, es, |es|)
    ensures After(c, s, es).nav == GoalReached
    ensures forall i :: 0 <= i < |es| && es[i].Solve? ==> Output(c, s, es, i) == Zero
  {
    HoldUpTo(c, s, es, |es|);
    assert es[..|es|] == es;
    forall i | 0 <= i < |es| && es[i].Solve? ensures Output(c, s, es, i) == Zero {
      HoldUpTo(c, s, es, i);
      HoldStep(c, After(c, s, es[..i]), es[i]);
    }
  }

  lemma {:induction false} GoalIsKept(c: Config, s: State, es: seq<Event>)
    requires s.goal.Some?
    ensures After(c, s, es).goal.Some?
  {
    if |es| > 0 { GoalIsKept(c, s, es[..|es| - 1]); }
  }

  /** The exact condition: GOAL_REACHED holds throughout a run if and only if no event of the run
      is an accepted goal or a solve with a stale pose. */
  lemma HoldIsExact(c: Config, s: State, es: seq<Event>)
    requires s.nav == GoalReached && s.goal.Some?
    ensures Uninterrupted(c, s, es, |es|) <==> forall n :: 0 <= n <= |es| ==> After(c, s, es[..n]).nav == GoalReached
  {
    if Uninterrupted(c, s, es, |es|) {
      forall n | 0 <= n <= |es| ensures After(c, s, es[..n]).nav == GoalReached {
        HoldUpTo(c, s, es, n);
      }
    }
    if forall n :: 0 <= n <= |es| ==> After(c, s, es[..n]).nav == GoalReached {
      forall i | 0 <= i < |es| ensures !EndsHold(c, After(c, s, es[..i]), es[i]) {
        GoalIsKept(c, s, es[..i]);
        HoldStep(c, After(c, s, es[..i]), es[i]);
        assert es[..i + 1][..i] == es[..i];
        assert After(c, s, es[..i + 1]).nav == GoalReached;
      }
    }
  }

  /** Event i is a solve that finds the pose stale. */
  predicate StaleAt(c: Config, s: State, es: seq<Event>, i: int)
    requires 0 <= i < |es|
  {
    es[i].Solve? && !PoseFresh(c, After(c, s, es[..i]), es[i].now)
  }

  /** Event i is a solve that finds the robot arrived: fresh pose, at the goal, on heading. */
  predicate ArrivesAt(c: Config, s: State, es: seq<Event>, i: int)
    requires 0 <= i < |es|
  {
    var st := After(c, s, es[..i]);
    es[i].Solve? && PoseFresh(c, st, es[i].now) && AtGoal(c, st) && !Misaligned(c, st)
  }

  /** Event i is a solve that would act unless held: it turns at the goal or follows a fresh path to it. */
  predicate ActsAt(c: Config, s: State, es: seq<Event>, i: int)
    requires 0 <= i < |es|
  {
    var st := After(c, s, es[..i]);
    && es[i].Solve? && PoseFresh(c, st, es[i].now)
    && if AtGoal(c, st) then Misaligned(c, st) else PathFresh(c, st, es[i].now)
  }

  /** A stale solve at i lets the solve at j act, the robot not having arrived again in between. None
      of this depends on the navigation state, only on the messages received. */
  ghost predicate Breaks(c: Config, s: State, es: seq<Event>, i: int, j: int) {
    && 0 <= i < j < |es| && StaleAt(c, s, es, i) && ActsAt(c, s, es, j)
    && NoArrival(c, s, es, i, j)
  }

  ghost predicate NoArrival(c: Config, s: State, es: seq<Event>, i: int, j: int)
    requires 0 <= i && j <= |es|
  {
    forall k :: i < k < j ==> !ArrivesAt(c, s, es, k)
  }

  /** No event of the run is an accepted goal. */
  ghost predicate SameGoalThroughout(c: Config, s: State, es: seq<Event>) {
    forall i :: 0 <= i < |es| && es[i].GoalMsg? ==> Duplicate(c, s, es[i].goal)
  }

  ghost predicate ZeroThroughout(c: Config, s: State, es: seq<Event>) {
    forall i :: 0 <= i < |es| && es[i].Solve? ==> Output(c, s, es, i) == Zero
  }

  lemma AfterPrefix(c: Config, s: State, es: seq<Event>, n: nat)
    requires n < |es|
    ensures After(c, s, es[..n + 1]) == React(c, After(c, s, es[..n]), es[n]).0
  {
    assert es[..n + 1][..n] == es[..n];
  }

  lemma {:induction false} GoalStays(c: Config, s: State, es: seq<Event>, n: nat)
    requires SameGoalThroughout(c, s, es) && n <= |es|
    ensures After(c, s, es[..n]).goal == s.goal
  {
    if n > 0 {
      GoalStays(c, s, es, n - 1);
      AfterPrefix(c, s, es, n - 1);
    }
  }

  /** Only an arrival starts the hold. */
  lemma ArrivalStep(c: Config, s: State, e: Event)
    requires s.nav != GoalReached
    ensures React(c, s, e).0.nav == GoalReached <==>
            e.Solve? && PoseFresh(c, s, e.now) && AtGoal(c, s) && !Misaligned(c, s)
  {
  }

  /** A hold that is gone was ended by a stale solve, with no arrival since. */
  lemma {:induction false} LostBy(c: Config, s: State, es: seq<Event>, n: nat) returns (i: int)
    requires s.nav == GoalReached && s.goal.Some? && SameGoalThroughout(c, s, es) && n <= |es|
    requires After(c, s, es[..n]).nav != GoalReached
    ensures 0 <= i < n && StaleAt(c, s, es, i) && NoArrival(c, s, es, i, n)
  {
    AfterPrefix(c, s, es, n - 1);
    GoalStays(c, s, es, n - 1);
    var was := After(c, s, es[..n - 1]);
    if was.nav == GoalReached {
      HoldStep(c, was, es[n - 1]);
      i := n - 1;
    } else {
      i := LostBy(c, s, es, n - 1);
      ArrivalStep(c, was, es[n - 1]);
      assert !ArrivesAt(c, s, es, n - 1);
    }
  }

  /** Lost at i, the hold stays lost until the robot arrives again. */
  lemma {:induction false} StaysLost(c: Config, s: State, es: seq<Event>, i: int, n: nat)
    requires 0 <= i < n <= |es| && StaleAt(c, s, es, i) && NoArrival(c, s, es, i, n)
    ensures After(c, s, es[..n]).nav != GoalReached
  {
    AfterPrefix(c, s, es, n - 1);
    var was := After(c, s, es[..n - 1]);
    if i < n - 1 {
      StaysLost(c, s, es, i, n - 1);
      assert !ArrivesAt(c, s, es, n - 1);
      ArrivalStep(c, was, es[n - 1]);
    } else {
      StaleStops(c, was, es[n - 1]);
    }
  }

  lemma StaleStops(c: Config, s: State, e: Event)
    requires e.Solve? && !PoseFresh(c, s, e.now)
    ensures React(c, s, e).0.nav == Stopped
  {
  }

  /** Exactly when a robot that has reached its goal is sent zero until a new goal comes: over a run
      without an accepted goal every solve publishes zero if and only if no solve that would act
      follows a stale one without an arrival in between. */
  lemma ZeroUntilNewGoalIsExact(c: Config, s: State, es: seq<Event>)
    requires s.nav == GoalReached && s.goal.Some? && SameGoalThroughout(c, s, es)
    ensures ZeroThroughout(c, s, es) <==> forall i, j :: !Breaks(c, s, es, i, j)
  {
    forall i, j | Breaks(c, s, es, i, j) ensures !ZeroThroughout(c, s, es) {
      StaysLost(c, s, es, i, j);
      GoalStays(c, s, es, j);
      assert Output(c, s, es, j) != Zero;
    }
    forall j | 0 <= j < |es| && es[j].Solve? && Output(c, s, es, j) != Zero ensures exists i :: Breaks(c, s, es, i, j) {
      GoalStays(c, s, es, j);
      var i := LostBy(c, s, es, j);
      assert Breaks(c, s, es, i, j);
    }
  }

  /** The hold does not last "until a new goal": after one stale pose the robot can be driven
      again although no goal message ever came. */
  lemma StalePoseBreaksHold(c: Config, s: State, far: Pose)
    requires s.nav == GoalReached && s.goal.Some? && s.pose.Some? && s.lastOdom.Some?
    requires c.odomTimeout >= 0.0 && c.pathTimeout >= 0.0
    requires c.norm(far.x - s.goal.value.x, far.y - s.goal.value.y) > c.goalRadius
    ensures var late := s.lastOdom.value + c.odomTimeout + 1.0;
            var es := [Solve(late, None, None), PoseMsg(late, far), PathMsg(late, true), Solve(late, None, Some((1.0, 0.0, 0.0)))];
            && (forall i :: 0 <= i < |es| ==> !es[i].GoalMsg?)
            && Output(c, s, es, 3) == Command((1.0, 0.0, 0.0))
  {
    var late := s.lastOdom.value + c.odomTimeout + 1.0;
    var es := [Solve(late, None, None), PoseMsg(late, far), PathMsg(late, true), Solve(late, None, Some((1.0, 0.0, 0.0)))];
    assert es[..3][..2] == es[..2] && es[..2][..1] == es[..1] && es[..1][..0] == [];
    var s1 := After(c, s, es[..1]);
    assert s1 == React(c, After(c, s, es[..1][..0]), es[0]).0;
    var s2 := After(c, s, es[..2]);
    assert s2 == React(c, s1, es[1]).0;
    var s3 := After(c, s, es[..3]);
    assert s3 == React(c, s2, es[2]).0;
  }

  lemma {:induction false} AfterConcat(c: Config, s: State, a: seq<Event>, b: seq<Event>)
    ensures After(c, s, a + b) == After(c, After(c, s, a), b)
  {
    if |b| == 0 {
      assert a + b == a;
    } else {
      AfterConcat(c, s, a, b[..|b| - 1]);
      assert (a + b)[..|a + b| - 1] == a + b[..|b| - 1];
    }
  }

  lemma AfterNext(c: Config, s: State, es: seq<Event>, e: Event)
    ensures After(c, s, es + [e]) == React(c, After(c, s, es), e).0
  {
    assert (es + [e])[..|es|] == es;
  }

  /** Such a run from the start: the goal is given once, reached, and left again. */
  lemma ReachedGoalIsLeft(c: Config, goal: Pose, far: Pose)
    requires c.odomTimeout >= 0.0 && c.pathTimeout >= 0.0
    requires c.norm(0.0, 0.0) <= c.goalRadius && AbsReal(c.wrap(0.0)) <= c.headingTol
    requires c.norm(far.x - goal.x, far.y - goal.y) > c.goalRadius
    ensures exists es: seq<Event> ::
              && |es| == 7 && es[0] == GoalMsg(goal) && (forall i :: 1 <= i < 7 ==> !es[i].GoalMsg?)
              && After(c, INITIAL, es[..3]).nav == GoalReached
              && Output(c, INITIAL, es, 6) == Command((1.0, 0.0, 0.0))
  {
    var a := [GoalMsg(goal), PoseMsg(0.0, goal), Solve(0.0, None, None)];
    assert a == [] + [a[0]] + [a[1]] + [a[2]];
    AfterNext(c, INITIAL, [], a[0]);
    AfterNext(c, INITIAL, [] + [a[0]], a[1]);
    AfterNext(c, INITIAL, [] + [a[0]] + [a[1]], a[2]);
    var s := After(c, INITIAL, a);
    assert s.nav == GoalReached && s.goal == Some(goal) && s.pose == Some(goal) && s.lastOdom == Some(0.0);
    StalePoseBreaksHold(c, s, far);
    var late := s.lastOdom.value + c.odomTimeout + 1.0;
    var b := [Solve(late, None, None), PoseMsg(late, far), PathMsg(late, true), Solve(late, None, Some((1.0, 0.0, 0.0)))];
    var es := a + b;
    assert es[..3] == a && es[..6] == a + b[..3];
    AfterConcat(c, INITIAL, a, b[..3]);
  }
}
