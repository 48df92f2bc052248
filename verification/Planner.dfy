/** Local goal selection and the complete planning call. */
module Planners {
  import opened Reals
  import opened Wrappers
  import opened Grids
  import opened BestFirst
  import opened AStar
  import opened Sight
  import opened Shortcuts
  import opened FreeCells
  import opened Inflation

  function WorldToIndex(g: Grid, p: (real, real)): Option<Cell>
    requires g.reso > 0.0
  {
    var c := CellOf(g.minx, g.miny, g.reso, p);
    if InGrid(g, c) then Some(c) else None
  }

  function IndexToWorld(g: Grid, c: Cell): (real, real) {
    (c.x as real * g.reso + g.minx, c.y as real * g.reso + g.miny)
  }

  /** A point is located in exactly the grid cell whose box holds it; the boxes of the first row and
      column also take the points less than one cell below the origin. */
  lemma LocatedInBox(g: Grid, p: (real, real), c: Cell)
    requires g.reso > 0.0
    ensures WorldToIndex(g, p) == Some(c) <==>
            && 0 <= c.x < g.cells && 0 <= c.y < g.cells
            && Truncates(p.0 - g.minx, g.reso, c.x) && Truncates(p.1 - g.miny, g.reso, c.y)
  {
    TruncIsExact(p.0 - g.minx, g.reso, c.x);
    TruncIsExact(p.1 - g.miny, g.reso, c.y);
  }

  /** The coordinates handed out for a cell of the grid lead back to that cell. */
  lemma RoundTrip(g: Grid, c: Cell)
    requires g.reso > 0.0 && InGrid(g, c)
    ensures WorldToIndex(g, IndexToWorld(g, c)) == Some(c)
  {
    var p := IndexToWorld(g, c);
    OwnStep(g.minx, g.reso, c.x, p.0);
    OwnStep(g.miny, g.reso, c.y, p.1);
    LocatedInBox(g, p, c);
  }

  lemma OwnStep(low: real, reso: real, k: int, x: real)
    requires reso > 0.0 && k >= 0 && x == k as real * reso + low
    ensures Truncates(x - low, reso, k)
  {
    Compare(k as real, (k + 1) as real, reso);
  }

  /** They are the lowest coordinates of the cell's box. */
  lemma CornerIsLowest(g: Grid, p: (real, real), c: Cell)
    requires g.reso > 0.0 && WorldToIndex(g, p) == Some(c) && p.0 >= g.minx && p.1 >= g.miny
    ensures var q := IndexToWorld(g, c);
            q.0 <= p.0 < q.0 + g.reso && q.1 <= p.1 < q.1 + g.reso
  {
    LocatedInBox(g, p, c);
    StepTop(c.x, g.reso);
    StepTop(c.y, g.reso);
  }

  lemma StepTop(k: int, reso: real)
    ensures (k + 1) as real * reso == k as real * reso + reso
  {
  }

  function MinReal(a: real, b: real): real { if b < a then b else a }

  function Clamp(v: int, cells: nat): int
    requires cells > 0
  {
    var low := if v < cells - 1 then v else cells - 1;
    if low > 0 then low else 0
  }

  /** How far along one axis the segment stays inside the grid, as a fraction of its length. */
  function AxisLimit(from: int, d: int, cells: nat): real {
    if d > 0 then MinReal(1.0, (cells - 1 - from) as real / d as real)
    else if d < 0 then MinReal(1.0, (-from) as real / d as real)
    else 1.0
  }

  /** How far the segment toward the goal is followed, as a fraction of its length. */
  function RayLimit(g: Grid, from: Cell, goal: Cell): real {
    var tx := AxisLimit(from.x, goal.x - from.x, g.cells);
    var tMax := if tx < 0.0 then 0.0 else tx;
    MinReal(tMax, AxisLimit(from.y, goal.y - from.y, g.cells))
  }

  /** The coordinate at fraction u of the way along one axis. */
  function Coordinate(from: int, d: int, u: real): real { from as real + u * d as real }

  /** The grid cell near the edge on the ray toward a goal outside the grid. */
  function RayGridBoundary(g: Grid, from: Cell, goal: Cell): (c: Cell)
    requires g.cells > 0
    ensures InGrid(g, c)
  {
    var t := RayLimit(g, from, goal) * 0.97;
    Cell(Clamp(Trunc(Coordinate(from.x, goal.x - from.x, t)), g.cells),
         Clamp(Trunc(Coordinate(from.y, goal.y - from.y, t)), g.cells))
  }

  predicate OnAxis(from: int, d: int, cells: int, u: real) { 0.0 <= Coordinate(from, d, u) <= (cells - 1) as real }

  /** The point at fraction u of the segment lies between the centres of the outermost cells. */
  predicate OnGrid(g: Grid, from: Cell, goal: Cell, u: real) {
    OnAxis(from.x, goal.x - from.x, g.cells, u) && OnAxis(from.y, goal.y - from.y, g.cells, u)
  }

  lemma AxisLimitIsFarthest(from: int, d: int, cells: nat, u: real)
    requires 0 <= from < cells && 0.0 <= u <= 1.0
    ensures 0.0 <= AxisLimit(from, d, cells) <= 1.0
    ensures OnAxis(from, d, cells, u) <==> u <= AxisLimit(from, d, cells)
  {
    var x, top := from as real, (cells - 1) as real;
    if d > 0 {
      ForwardLimit(x, d as real, top, u);
      assert (cells - 1 - from) as real == top - x;
    } else if d < 0 {
      BackwardLimit(x, d as real, top, u);
      assert (-from) as real == -x;
    }
  }

  lemma ForwardLimit(x: real, d: real, top: real, u: real)
    requires 0.0 <= x <= top && d > 0.0 && u >= 0.0
    ensures (top - x) / d >= 0.0 && (0.0 <= x + u * d <= top <==> u <= (top - x) / d)
  {
    QuotientBounds(top - x, d, u);
    ProductNonNegative(u, d);
  }

  lemma BackwardLimit(x: real, d: real, top: real, u: real)
    requires 0.0 <= x <= top && d < 0.0 && u >= 0.0
    ensures -x / d >= 0.0 && (0.0 <= x + u * d <= top <==> u <= -x / d)
  {
    QuotientBounds(x, -d, u);
    ProductNonNegative(u, -d);
    NegatedQuotient(x, d);
    assert u * -d == -(u * d);
  }

  lemma QuotientBounds(room: real, d: real, u: real)
    requires room >= 0.0 && d > 0.0
    ensures room / d >= 0.0 && (u * d <= room <==> u <= room / d)
  {
    var q := room / d;
    assert q * d == room;
    if q < 0.0 { ProductPositive(-q, d); }
    if u < q { ProductPositive(q - u, d); }
    if u > q { ProductPositive(u - q, d); }
  }

  lemma NegatedQuotient(x: real, d: real)
    requires d < 0.0
    ensures (-x) / d == x / (-d)
  {
    var q := x / (-d);
    assert q * (-d) == x;
    assert q * d == -x;
  }

  /** The segment is followed as far as it stays on the grid. */
  lemma RayLimitIsFarthest(g: Grid, from: Cell, goal: Cell, u: real)
    requires InGrid(g, from) && 0.0 <= u <= 1.0
    ensures 0.0 <= RayLimit(g, from, goal) <= 1.0
    ensures OnGrid(g, from, goal, u) <==> u <= RayLimit(g, from, goal)
  {
    AxisLimitIsFarthest(from.x, goal.x - from.x, g.cells, u);
    AxisLimitIsFarthest(from.y, goal.y - from.y, g.cells, u);
  }

  /** From a cell of the grid the final clamp changes nothing: the boundary cell is the truncated
      point at 0.97 of the followed part of the segment. */
  lemma BoundaryIsOnRay(g: Grid, from: Cell, goal: Cell)
    requires InGrid(g, from)
    ensures var t := RayLimit(g, from, goal) * 0.97;
            && OnGrid(g, from, goal, t)
            && RayGridBoundary(g, from, goal) == Cell(Coordinate(from.x, goal.x - from.x, t).Floor,
                                                      Coordinate(from.y, goal.y - from.y, t).Floor)
  {
    RayLimitIsFarthest(g, from, goal, 0.0);
    RayLimitIsFarthest(g, from, goal, RayLimit(g, from, goal) * 0.97);
  }

  /** The cell aimed at before obstacles are considered. */
  function Aim(g: Grid, from: Cell, goal: (real, real)): (c: Cell)
    requires g.reso > 0.0 && InGrid(g, from)
    ensures InGrid(g, c)
  {
    match WorldToIndex(g, goal)
    case Some(c) => c
    case None => RayGridBoundary(g, from, CellOf(g.minx, g.miny, g.reso, goal))
  }

  /** Every value of u up to limit, and no other, keeps the segment between the outermost cell centres. */
  ghost predicate LeavesAt(g: Grid, from: Cell, to: Cell, limit: real) {
    && 0.0 <= limit <= 1.0
    && forall u :: 0.0 <= u <= 1.0 ==> (OnGrid(g, from, to, u) <==> u <= limit)
  }

  /** The k-th cell along an axis holds the point at fraction u of the way. */
  predicate HoldsFraction(from: int, d: int, u: real, k: int) {
    k as real <= from as real + u * d as real < (k + 1) as real
  }

  /** A goal in the grid is aimed at in its own cell; a goal outside, in the cell at 0.97 of the part of
      the segment toward the goal that stays on the grid. */
  lemma AimIsExact(g: Grid, from: Cell, goal: (real, real), to: Cell, limit: real)
    requires g.reso > 0.0 && InGrid(g, from) && LeavesAt(g, from, to, limit)
    requires Truncates(goal.0 - g.minx, g.reso, to.x) && Truncates(goal.1 - g.miny, g.reso, to.y)
    ensures InGrid(g, to) ==> Aim(g, from, goal) == to
    ensures !InGrid(g, to) ==>
              var c := Aim(g, from, goal);
              && HoldsFraction(from.x, to.x - from.x, limit * 0.97, c.x)
              && HoldsFraction(from.y, to.y - from.y, limit * 0.97, c.y)
  {
    TruncIsExact(goal.0 - g.minx, g.reso, to.x);
    TruncIsExact(goal.1 - g.miny, g.reso, to.y);
    if !InGrid(g, to) {
      OneLimit(g, from, to, limit);
      BoundaryIsOnRay(g, from, to);
      FractionHeld(from.x, to.x - from.x, limit * 0.97, Aim(g, from, goal).x);
      FractionHeld(from.y, to.y - from.y, limit * 0.97, Aim(g, from, goal).y);
    }
  }

  lemma FractionHeld(from: int, d: int, u: real, k: int)
    requires k == Coordinate(from, d, u).Floor
    ensures HoldsFraction(from, d, u, k)
  {
  }

  lemma OneLimit(g: Grid, from: Cell, to: Cell, limit: real)
    requires InGrid(g, from) && LeavesAt(g, from, to, limit)
    ensures RayLimit(g, from, to) == limit
  {
    var r := RayLimit(g, from, to);
    RayLimitIsFarthest(g, from, to, limit);
    RayLimitIsFarthest(g, from, to, r);
    assert OnGrid(g, from, to, r) && OnGrid(g, from, to, limit);
  }

  /** A free cell nearest to the aimed one. */
  ghost predicate IsLocalGoal(s: Settings, g: Grid, from: Cell, goal: (real, real), c: Cell)
    requires WellFormed(g) && InGrid(g, from)
  {
    IsFree(s, g, c) && forall d :: IsFree(s, g, d) ==> Cheb(Aim(g, from, goal), c) <= Cheb(Aim(g, from, goal), d)
  }

  /** No square around the aimed cell holds a free cell without holding the local goal. */
  lemma LocalGoalInSquare(s: Settings, g: Grid, from: Cell, goal: (real, real), c: Cell, free: Cell, d: int)
    requires WellFormed(g) && InGrid(g, from) && IsLocalGoal(s, g, from, goal, c) && IsFree(s, g, free)
    requires var aim := Aim(g, from, goal); -d <= free.x - aim.x <= d && -d <= free.y - aim.y <= d
    ensures var aim := Aim(g, from, goal); -d <= c.x - aim.x <= d && -d <= c.y - aim.y <= d
  {
    ChebIsSquare(Aim(g, from, goal), free, d);
    ChebIsSquare(Aim(g, from, goal), c, d);
  }

  /** The local goal: the first free cell in breadth-first order around the aimed cell. */
  ghost function LocalGoalOf(s: Settings, g: Grid, from: Cell, goal: (real, real)): Option<Cell>
    requires WellFormed(g) && InGrid(g, from)
  {
    FirstFree(s, g, Aim(g, from, goal))
  }

  /** The free cell nearest to the aimed cell; None exactly when the grid has no free cell. */
  method LocalGoal(s: Settings, g: Grid, from: Cell, goal: (real, real)) returns (r: Option<Cell>)
    requires WellFormed(g) && InGrid(g, from)
    ensures r == LocalGoalOf(s, g, from, goal)
    ensures r.Some? ==> IsLocalGoal(s, g, from, goal, r.value)
    ensures r.None? <==> forall c :: !IsFree(s, g, c)
  {
    var aim := Aim(g, from, goal);
    if IsFree(s, g, aim) {
      return Some(aim);
    }
    r := NearestFree(s, g, aim);
  }

  /** Every cell on the line between consecutive waypoints is free, the very first cell excepted. */
  ghost predicate FreeBetween(s: Settings, g: Grid, cells: seq<Cell>)
    requires WellFormed(g)
  {
    forall i :: 0 <= i < |cells| - 1 ==> FreeLine(s, g, cells[i], cells[i + 1], i == 0)
  }

  ghost predicate FreeLine(s: Settings, g: Grid, a: Cell, b: Cell, fromStart: bool)
    requires WellFormed(g)
  {
    forall t: nat :: t <= Length(a, b) ==> (fromStart && t == 0) || IsFree(s, g, LineCell(a, b, t))
  }

  /** A single step is its own line. */
  lemma StepLine(s: Settings, g: Grid, a: Cell, b: Cell, t: nat)
    requires WellFormed(g) && Neighbours(a, b) && t <= Length(a, b)
    ensures LineCell(a, b, t) == if t == 0 then a else b
  {
    LineEnds(a, b);
  }

  /** Shortening a path of the search keeps its waypoint lines free. */
  lemma ShortenedIsFree(s: Settings, g: Grid, m: Metric, goal: Cell, start: Cell, path: seq<Cell>, kept: seq<nat>)
    requires WellFormed(g) && s.threshold != 0.0 && IsPath(GraphOf(s, g, m, goal), start, path)
    requires Selection(kept, |path|) && Greedy(SightOf(s, g, path), |path|, kept)
    ensures FreeBetween(s, g, Pick(path, kept))
  {
    var cells := Pick(path, kept);
    forall i | 0 <= i < |cells| - 1 ensures FreeLine(s, g, cells[i], cells[i + 1], i == 0) {
      var a, b := cells[i], cells[i + 1];
      SegmentsAreSafe(s, g, path, kept, i);
      if !Sees(s, g, a, b) {
        EnteredIsFree(s, g, m, goal, start, path, kept[i]);
        if i > 0 { EnteredIsFree(s, g, m, goal, start, path, kept[i] - 1); }
        forall t: nat | t <= Length(a, b) && !(i == 0 && t == 0) ensures IsFree(s, g, LineCell(a, b, t)) {
          StepLine(s, g, a, b, t);
        }
      }
    }
  }

  lemma EnteredIsFree(s: Settings, g: Grid, m: Metric, goal: Cell, start: Cell, path: seq<Cell>, j: nat)
    requires WellFormed(g) && s.threshold != 0.0 && IsPath(GraphOf(s, g, m, goal), start, path) && j + 1 < |path|
    ensures Step(s, g, path[j], path[j + 1])
  {
    assert GraphOf(s, g, m, goal).edge(path[j], path[j + 1]);
  }

  /** There is nothing to plan: the robot is off the grid, no cell is free, or no path leads to the
      local goal. */
  ghost predicate NoPlan(s: Settings, g: Grid, m: Metric, from: (real, real), goal: (real, real))
    requires WellFormed(g) && s.threshold != 0.0
  {
    match WorldToIndex(g, from)
    case None => true
    case Some(start) =>
      match LocalGoalOf(s, g, start, goal)
      case None => true
      case Some(c) => forall p :: !PathTo(GraphOf(s, g, m, c), start, p, c)
  }

  /** A cheapest path of cells to a local goal, greedily shortened to what is in sight, in world
      coordinates. */
  ghost predicate Route(s: Settings, g: Grid, m: Metric, start: Cell, goal: (real, real), path: seq<(real, real)>,
                        way: seq<Cell>, kept: seq<nat>)
    requires WellFormed(g) && s.threshold != 0.0 && InGrid(g, start)
  {
    && |way| > 0
    && LocalGoalOf(s, g, start, goal) == Some(way[|way| - 1]) && IsLocalGoal(s, g, start, goal, way[|way| - 1])
    && Cheapest(GraphOf(s, g, m, way[|way| - 1]), start, way, way[|way| - 1])
    && Selection(kept, |way|) && Greedy(SightOf(s, g, way), |way|, kept)
    && path == seq(|kept|, i requires 0 <= i < |kept| => IndexToWorld(g, way[kept[i]]))
  }

  /** Plans from the robot to a local goal. */
  method Plan(s: Settings, g: Grid, m: Metric, from: (real, real), goal: (real, real))
    returns (path: Option<seq<(real, real)>>, ghost way: seq<Cell>, ghost kept: seq<nat>)
    requires WellFormed(g) && Sensible(s) && Euclidean(m)
    ensures path.None? <==> NoPlan(s, g, m, from, goal)
    ensures path.Some? ==>
              && WorldToIndex(g, from).Some?
              && Route(s, g, m, WorldToIndex(g, from).value, goal, path.value, way, kept)
              && FreeBetween(s, g, Pick(way, kept))
  {
    way, kept := [], [];
    var start := WorldToIndex(g, from);
    if start.None? { return None, way, kept; }
    var local := LocalGoal(s, g, start.value, goal);
    if local.None? { return None, way, kept; }
    if start.value == local.value {
      StayPut(s, g, m, start.value, goal);
      return Some([IndexToWorld(g, start.value)]), [start.value], [0];
    }
    var found := Search(s, g, m, start.value, local.value);
    if found.None? { return None, way, kept; }
    way := found.value;
    var short;
    short, kept := ShortcutPath(s, g, found.value);
    ShortenedIsFree(s, g, m, local.value, start.value, way, kept);
    path := Some(seq(|short|, i requires 0 <= i < |short| => IndexToWorld(g, short[i])));
  }

  lemma StayPut(s: Settings, g: Grid, m: Metric, start: Cell, goal: (real, real))
    requires WellFormed(g) && Sensible(s) && Euclidean(m) && InGrid(g, start) && IsLocalGoal(s, g, start, goal, start)
    requires LocalGoalOf(s, g, start, goal) == Some(start)
    ensures Route(s, g, m, start, goal, [IndexToWorld(g, start)], [start], [0])
  {
    GridIsConsistent(s, g, m, start);
    StayingIsCheapest(GraphOf(s, g, m, start), start);
    ShortIsKept(SightOf(s, g, [start]), [start], [0]);
  }

  /** The updated map locates a point around the robot in the very cell that the point would hit. */
  lemma HitIsLocated(p: MapParams, m: Metric, exp: real -> real, cells: nat, reso: real, robot: (real, real),
                     pts: seq<(real, real)>, hmap: Option<seq<seq<Option<real>>>>, pt: (real, real), c: Cell)
    requires reso > 0.0 && Around(robot, p.halfWidth, pt)
    ensures WorldToIndex(Update(p, m, exp, cells, reso, robot, pts, hmap), pt) == Some(c) <==>
            Hits(p, cells, reso, robot, pt, c)
  {
    LocatedInBox(Update(p, m, exp, cells, reso, robot, pts, hmap), pt, c);
    RasterOne(p, cells, reso, robot, pt, c);
  }

  /** On an inflated map with stepping over disabled, every cell on the line between consecutive
      waypoints, the start cell excepted, is farther than the robot radius from the cell of every
      obstacle point around the robot. */
  lemma PlanKeepsClear(p: MapParams, m: Metric, exp: real -> real, cells: nat, reso: real, robot: (real, real),
                       pts: seq<(real, real)>, hmap: Option<seq<seq<Option<real>>>>, s: Settings, way: seq<Cell>,
                       i: nat, t: nat, k: nat, o: Cell)
    requires Clipped(p) && Decaying(exp) && Euclidean(m) && reso > 0.0
    requires var g := Update(p, m, exp, cells, reso, robot, pts, hmap);
             && WellFormed(g) && (s.stepHeight <= 0.0 || hmap.None?) && p.softMax < s.threshold <= 1.0
             && FreeBetween(s, g, way)
    requires i < |way| - 1 && t <= Length(way[i], way[i + 1]) && !(i == 0 && t == 0)
    requires k < |pts| && Hits(p, cells, reso, robot, pts[k], o)
    ensures FartherThan(reso, LineCell(way[i], way[i + 1], t), o, p.robotRadius)
  {
    assert FreeLine(s, Update(p, m, exp, cells, reso, robot, pts, hmap), way[i], way[i + 1], i == 0);
    assert HitBySome(p, cells, reso, robot, pts, o);
    FreeIsFarFromPoints(p, m, exp, cells, reso, robot, pts, hmap, s, LineCell(way[i], way[i + 1], t));
  }
}
