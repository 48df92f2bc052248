/** Rasterising obstacle points and inflating them by the robot radius. */
module Inflation {
  import opened Wrappers
  import opened Grids
  import opened Reals

  /** int(): truncation toward zero. */
  function Trunc(r: real): int {
    if r >= 0.0 then r.Floor else -((-r).Floor)
  }

  datatype MapParams = MapParams(halfWidth: real, robotRadius: real, inflationRadius: real, softMax: real)

  /** The constructor keeps the inflation radius at least the robot radius and the soft cost below one half. */
  ghost predicate Clipped(p: MapParams) {
    p.inflationRadius >= p.robotRadius && 0.0 <= p.softMax <= 0.499
  }

  predicate InWindow(p: MapParams, minx: real, miny: real, pt: (real, real)) {
    && minx <= pt.0 < minx + 2.0 * p.halfWidth
    && miny <= pt.1 < miny + 2.0 * p.halfWidth
  }

  function CellOf(minx: real, miny: real, reso: real, pt: (real, real)): Cell
    requires reso > 0.0
  {
    Cell(Trunc((pt.0 - minx) / reso), Trunc((pt.1 - miny) / reso))
  }

  /** Cells hit by the obstacle points that lie in the window and in the grid. */
  function Occupied(p: MapParams, cells: nat, minx: real, miny: real, reso: real, pts: seq<(real, real)>): seq<Cell>
    requires reso > 0.0
  {
    if |pts| == 0 then []
    else
      var rest := Occupied(p, cells, minx, miny, reso, pts[..|pts| - 1]);
      var pt := pts[|pts| - 1];
      var c := CellOf(minx, miny, reso, pt);
      if InWindow(p, minx, miny, pt) && 0 <= c.x < cells && 0 <= c.y < cells then rest + [c] else rest
  }

  function HitDistance(m: Metric, o: Cell, c: Cell): real {
    m.hypot(c.x - o.x, c.y - o.y)
  }

  function Metres(d: real, reso: real): real { d * reso }

  /** Distance in cells to the nearest occupied cell. */
  function NearestHit(m: Metric, occupied: seq<Cell>, c: Cell): (d: real)
    requires |occupied| > 0
  {
    var d := HitDistance(m, occupied[|occupied| - 1], c);
    if |occupied| == 1 then d
    else
      var e := NearestHit(m, occupied[..|occupied| - 1], c);
      if d < e then d else e
  }

  lemma {:induction false} NearestHitIsMinimum(m: Metric, occupied: seq<Cell>, c: Cell)
    requires |occupied| > 0
    ensures forall i :: 0 <= i < |occupied| ==> NearestHit(m, occupied, c) <= HitDistance(m, occupied[i], c)
    ensures exists i :: 0 <= i < |occupied| && NearestHit(m, occupied, c) == HitDistance(m, occupied[i], c)
  {
    var n := |occupied| - 1;
    assert HitDistance(m, occupied[n], c) == HitDistance(m, occupied[|occupied| - 1], c);
    if n > 0 {
      var front := occupied[..n];
      NearestHitIsMinimum(m, front, c);
      var j :| 0 <= j < |front| && NearestHit(m, front, c) == HitDistance(m, front[j], c);
      assert occupied[j] == front[j];
      forall i | 0 <= i < |occupied| ensures NearestHit(m, occupied, c) <= HitDistance(m, occupied[i], c) {
        if i < n { assert front[i] == occupied[i]; }
      }
    }
  }

  /** The exponential, as far as the soft band needs it. */
  ghost predicate Decaying(exp: real -> real) {
    && (forall x :: x <= 0.0 ==> 0.0 < exp(x) <= 1.0)
    && (forall x, y :: x <= y <= 0.0 ==> exp(x) <= exp(y))
  }

  /** The cost of a cell by its distance to the nearest obstacle: lethal core, soft band, nothing. */
  function CostAt(p: MapParams, exp: real -> real, dist: real): real {
    if dist <= p.robotRadius then 1.0
    else if p.inflationRadius > p.robotRadius && dist <= p.inflationRadius then SoftCost(p, exp, dist)
    else 0.0
  }

  function InflatedCost(p: MapParams, m: Metric, exp: real -> real, reso: real, occupied: seq<Cell>, c: Cell): real {
    if |occupied| == 0 then 0.0 else CostAt(p, exp, Metres(NearestHit(m, occupied, c), reso))
  }

  function DecayLength(p: MapParams): (d: real)
    ensures d > 0.0
  {
    var third := (p.inflationRadius - p.robotRadius) / 3.0;
    if third >= 0.001 then third else 0.001
  }

  /** The soft band decays with the distance beyond the robot radius. */
  function SoftCost(p: MapParams, exp: real -> real, dist: real): real {
    p.softMax * exp(-(dist - p.robotRadius) / DecayLength(p))
  }

  /** The grid centred on the robot with the inflated costs of the given obstacles. */
  function Update(p: MapParams, m: Metric, exp: real -> real, cells: nat, reso: real, robot: (real, real),
                  pts: seq<(real, real)>, hmap: Option<seq<seq<Option<real>>>>): Grid
    requires reso > 0.0
  {
    var minx, miny := robot.0 - p.halfWidth, robot.1 - p.halfWidth;
    var occupied := Occupied(p, cells, minx, miny, reso, pts);
    Grid(cells, reso, minx, miny,
         seq(cells, x => seq(cells, y => InflatedCost(p, m, exp, reso, occupied, Cell(x, y)))), hmap)
  }

  /** Farther than the robot radius from every occupied cell. */
  ghost predicate Clear(p: MapParams, m: Metric, reso: real, occupied: seq<Cell>, c: Cell) {
    forall i :: 0 <= i < |occupied| ==> Metres(HitDistance(m, occupied[i], c), reso) > p.robotRadius
  }

  lemma ProductOrder(a: real, b: real, k: real)
    requires k > 0.0
    ensures a <= b <==> Metres(a, k) <= Metres(b, k)
  {
    if a <= b { assert (b - a) * k >= 0.0; } else { assert (a - b) * k > 0.0; }
  }

  lemma ProductInUnit(a: real, b: real)
    requires a >= 0.0 && 0.0 <= b <= 1.0
    ensures 0.0 <= a * b <= a
  {
    assert a * (1.0 - b) >= 0.0;
  }

  lemma QuotientSign(a: real, d: real)
    requires a >= 0.0 && d > 0.0
    ensures -a / d <= 0.0
  {
    assert -a / d == -(a / d);
    assert a / d >= 0.0;
  }

  lemma SoftCostAtMost(p: MapParams, exp: real -> real, dist: real)
    requires Clipped(p) && Decaying(exp) && dist > p.robotRadius
    ensures SoftCost(p, exp, dist) <= p.softMax
  {
    QuotientSign(dist - p.robotRadius, DecayLength(p));
    ProductInUnit(p.softMax, exp(-(dist - p.robotRadius) / DecayLength(p)));
  }

  /** Below the threshold means clear of every obstacle by the robot radius, and conversely. */
  lemma BelowThresholdIsClear(p: MapParams, m: Metric, exp: real -> real, reso: real, occupied: seq<Cell>, c: Cell, threshold: real)
    requires Clipped(p) && Decaying(exp) && reso > 0.0 && p.softMax < threshold <= 1.0
    ensures InflatedCost(p, m, exp, reso, occupied, c) < threshold <==> Clear(p, m, reso, occupied, c)
  {
    if |occupied| > 0 {
      ClearByNearest(p, m, reso, occupied, c);
      CostBelowThreshold(p, exp, Metres(NearestHit(m, occupied, c), reso), threshold);
    }
  }

  lemma CostBelowThreshold(p: MapParams, exp: real -> real, dist: real, threshold: real)
    requires Clipped(p) && Decaying(exp) && p.softMax < threshold <= 1.0
    ensures CostAt(p, exp, dist) < threshold <==> dist > p.robotRadius
  {
    if dist > p.robotRadius { SoftCostAtMost(p, exp, dist); }
  }

  lemma ClearByNearest(p: MapParams, m: Metric, reso: real, occupied: seq<Cell>, c: Cell)
    requires |occupied| > 0 && reso > 0.0
    ensures Metres(NearestHit(m, occupied, c), reso) > p.robotRadius <==> Clear(p, m, reso, occupied, c)
  {
    NearestHitIsMinimum(m, occupied, c);
    forall i | 0 <= i < |occupied| ensures Metres(NearestHit(m, occupied, c), reso) <= Metres(HitDistance(m, occupied[i], c), reso) {
      ProductOrder(NearestHit(m, occupied, c), HitDistance(m, occupied[i], c), reso);
    }
  }

  /** With stepping over disabled, the free cells of an updated map are exactly the grid cells
      clear of every rasterised obstacle. */
  lemma FreeIsClear(p: MapParams, m: Metric, exp: real -> real, cells: nat, reso: real, robot: (real, real),
                    pts: seq<(real, real)>, hmap: Option<seq<seq<Option<real>>>>, s: Settings, c: Cell)
    requires Clipped(p) && Decaying(exp) && reso > 0.0
    requires var g := Update(p, m, exp, cells, reso, robot, pts, hmap);
             WellFormed(g) && (s.stepHeight <= 0.0 || hmap.None?) && p.softMax < s.threshold <= 1.0
    ensures var g := Update(p, m, exp, cells, reso, robot, pts, hmap);
            IsFree(s, g, c) <==>
            InGrid(g, c) && Clear(p, m, reso, Occupied(p, cells, g.minx, g.miny, reso, pts), c)
  {
    var g := Update(p, m, exp, cells, reso, robot, pts, hmap);
    var occupied := Occupied(p, cells, g.minx, g.miny, reso, pts);
    if InGrid(g, c) {
      assert g.gmap[c.x][c.y] == InflatedCost(p, m, exp, reso, occupied, c);
      BelowThresholdIsClear(p, m, exp, reso, occupied, c, s.threshold);
    }
  }

  // ---- Which cells the obstacle points hit ----

  /** The gap truncates to k steps: the whole steps that fit, counted away from the origin on both sides. */
  predicate Truncates(gap: real, reso: real, k: int) {
    if k > 0 then k as real * reso <= gap < (k + 1) as real * reso
    else if k == 0 then -reso < gap < reso
    else (k - 1) as real * reso < gap <= k as real * reso
  }

  lemma TruncIsExact(gap: real, reso: real, k: int)
    requires reso > 0.0
    ensures Trunc(gap / reso) == k <==> Truncates(gap, reso, k)
  {
    var q := gap / reso;
    assert q * reso == gap;
    TruncIsFloor(q, k);
    if k > 0 {
      Scaled(q, k as real, (k + 1) as real, reso, gap);
    } else if k == 0 {
      Scaled(q, -1.0, 1.0, reso, gap);
    } else {
      Scaled(q, (k - 1) as real, k as real, reso, gap);
    }
  }

  lemma StepOfPoint(low: real, reso: real, x: real, k: int)
    requires reso > 0.0 && x >= low && k >= 0
    ensures Trunc((x - low) / reso) == k <==> InStep(x - low, reso, k)
  {
    TruncIsExact(x - low, reso, k);
  }

  lemma TruncIsFloor(q: real, k: int)
    ensures Trunc(q) == k <==>
            if k > 0 then k as real <= q < (k + 1) as real
            else if k == 0 then -1.0 < q < 1.0
            else (k - 1) as real < q <= k as real
  {
    if q >= 0.0 {
      FloorOf(q, k);
    } else {
      FloorOf(-q, -k);
    }
  }

  /** The point is within half the width of the robot on both axes, the upper side excluded. */
  predicate Around(robot: (real, real), halfWidth: real, pt: (real, real)) {
    -halfWidth <= pt.0 - robot.0 < halfWidth && -halfWidth <= pt.1 - robot.1 < halfWidth
  }

  /** The point is in the window around the robot and in the box of cell c, a cell of the grid. */
  predicate Hits(p: MapParams, cells: nat, reso: real, robot: (real, real), pt: (real, real), c: Cell) {
    && Around(robot, p.halfWidth, pt)
    && 0 <= c.x < cells && 0 <= c.y < cells
    && InStep(pt.0 - (robot.0 - p.halfWidth), reso, c.x) && InStep(pt.1 - (robot.1 - p.halfWidth), reso, c.y)
  }

  ghost predicate HitBySome(p: MapParams, cells: nat, reso: real, robot: (real, real), pts: seq<(real, real)>, c: Cell) {
    exists i :: 0 <= i < |pts| && Hits(p, cells, reso, robot, pts[i], c)
  }

  lemma RasterOne(p: MapParams, cells: nat, reso: real, robot: (real, real), pt: (real, real), c: Cell)
    requires reso > 0.0
    ensures var minx, miny := robot.0 - p.halfWidth, robot.1 - p.halfWidth;
            InWindow(p, minx, miny, pt) && 0 <= c.x < cells && 0 <= c.y < cells && CellOf(minx, miny, reso, pt) == c
            <==> Hits(p, cells, reso, robot, pt, c)
  {
    if Around(robot, p.halfWidth, pt) && 0 <= c.x && 0 <= c.y {
      StepOfPoint(robot.0 - p.halfWidth, reso, pt.0, c.x);
      StepOfPoint(robot.1 - p.halfWidth, reso, pt.1, c.y);
    }
  }

  /** The occupied cells of the updated map are exactly those hit by some obstacle point. */
  lemma {:induction false} RasterIsExact(p: MapParams, cells: nat, reso: real, robot: (real, real), pts: seq<(real, real)>, c: Cell)
    requires reso > 0.0
    ensures c in Occupied(p, cells, robot.0 - p.halfWidth, robot.1 - p.halfWidth, reso, pts)
            <==> HitBySome(p, cells, reso, robot, pts, c)
  {
    if |pts| > 0 {
      var front, pt := pts[..|pts| - 1], pts[|pts| - 1];
      RasterIsExact(p, cells, reso, robot, front, c);
      RasterOne(p, cells, reso, robot, pt, c);
      if HitBySome(p, cells, reso, robot, front, c) {
        var i :| 0 <= i < |front| && Hits(p, cells, reso, robot, front[i], c);
        assert Hits(p, cells, reso, robot, pts[i], c);
      }
      if HitBySome(p, cells, reso, robot, pts, c) {
        var i :| 0 <= i < |pts| && Hits(p, cells, reso, robot, pts[i], c);
        assert i < |front| ==> Hits(p, cells, reso, robot, front[i], c);
      }
    }
  }

  /** The square of the straight-line distance of two cell centres, in metres. */
  function SquaredGap(reso: real, a: Cell, b: Cell): real {
    (Sq((a.x - b.x) as real) + Sq((a.y - b.y) as real)) * Sq(reso)
  }

  /** The straight-line distance of two cell centres, in metres, exceeds r. */
  predicate FartherThan(reso: real, a: Cell, b: Cell, r: real) {
    r < 0.0 || SquaredGap(reso, a, b) > Sq(r)
  }

  lemma HitDistanceIsExact(m: Metric, reso: real, o: Cell, c: Cell, r: real)
    requires Euclidean(m) && reso > 0.0
    ensures Metres(HitDistance(m, o, c), reso) > r <==> FartherThan(reso, c, o, r)
  {
    GapIsSquared(m, reso, o, c);
    var d := Metres(HitDistance(m, o, c), reso);
    if r < 0.0 {
    } else if d > r {
      SquareGrows(r, d);
    } else {
      SquaresKeepOrder(d, r);
    }
  }

  lemma SquaresKeepOrder(x: real, y: real)
    requires 0.0 <= x <= y
    ensures Sq(x) <= Sq(y)
  {
    if x < y { SquareGrows(x, y); }
  }

  /** With stepping over disabled, a cell of the updated map is free if and only if it is in the grid
      and its centre is farther than the robot radius from that of every cell an obstacle point hits. */
  lemma FreeIsFarFromPoints(p: MapParams, m: Metric, exp: real -> real, cells: nat, reso: real, robot: (real, real),
                            pts: seq<(real, real)>, hmap: Option<seq<seq<Option<real>>>>, s: Settings, c: Cell)
    requires Clipped(p) && Decaying(exp) && Euclidean(m) && reso > 0.0
    requires var g := Update(p, m, exp, cells, reso, robot, pts, hmap);
             WellFormed(g) && (s.stepHeight <= 0.0 || hmap.None?) && p.softMax < s.threshold <= 1.0
    ensures IsFree(s, Update(p, m, exp, cells, reso, robot, pts, hmap), c) <==>
            && 0 <= c.x < cells && 0 <= c.y < cells
            && forall o :: HitBySome(p, cells, reso, robot, pts, o) ==> FartherThan(reso, c, o, p.robotRadius)
  {
    var occupied := Occupied(p, cells, robot.0 - p.halfWidth, robot.1 - p.halfWidth, reso, pts);
    FreeIsClear(p, m, exp, cells, reso, robot, pts, hmap, s, c);
    ClearIsFar(p, m, cells, reso, robot, pts, c);
  }

  lemma ClearIsFar(p: MapParams, m: Metric, cells: nat, reso: real, robot: (real, real), pts: seq<(real, real)>, c: Cell)
    requires Euclidean(m) && reso > 0.0
    ensures Clear(p, m, reso, Occupied(p, cells, robot.0 - p.halfWidth, robot.1 - p.halfWidth, reso, pts), c)
            <==> forall o :: HitBySome(p, cells, reso, robot, pts, o) ==> FartherThan(reso, c, o, p.robotRadius)
  {
    var occupied := Occupied(p, cells, robot.0 - p.halfWidth, robot.1 - p.halfWidth, reso, pts);
    if Clear(p, m, reso, occupied, c) {
      forall o | HitBySome(p, cells, reso, robot, pts, o) ensures FartherThan(reso, c, o, p.robotRadius) {
        RasterIsExact(p, cells, reso, robot, pts, o);
        var i :| 0 <= i < |occupied| && occupied[i] == o;
        HitDistanceIsExact(m, reso, o, c, p.robotRadius);
      }
    }
    if forall o :: HitBySome(p, cells, reso, robot, pts, o) ==> FartherThan(reso, c, o, p.robotRadius) {
      forall i | 0 <= i < |occupied| ensures Metres(HitDistance(m, occupied[i], c), reso) > p.robotRadius {
        RasterIsExact(p, cells, reso, robot, pts, occupied[i]);
        HitDistanceIsExact(m, reso, occupied[i], c, p.robotRadius);
      }
    }
  }

  // ---- The soft band ----

  /** The decay length: a third of the band, or a millimetre if that is more. */
  predicate Third(p: MapParams, l: real) {
    if p.inflationRadius - p.robotRadius >= 0.003 then 3.0 * l == p.inflationRadius - p.robotRadius else l == 0.001
  }

  /** The cost by distance: 1 up to the robot radius, then the soft maximum times the exponential of the
      distance beyond that radius in decay lengths, and 0 beyond the inflation radius. */
  lemma CostIsExact(p: MapParams, exp: real -> real, dist: real, l: real, x: real)
    requires Clipped(p) && Decaying(exp) && Third(p, l) && x * l == dist - p.robotRadius
    ensures dist <= p.robotRadius ==> CostAt(p, exp, dist) == 1.0
    ensures p.robotRadius < dist <= p.inflationRadius ==> CostAt(p, exp, dist) == p.softMax * exp(-x)
    ensures dist > p.inflationRadius ==> CostAt(p, exp, dist) == 0.0
  {
    if p.robotRadius < dist <= p.inflationRadius {
      assert DecayLength(p) == l;
      OneQuotient(dist - p.robotRadius, l, x);
      assert -(dist - p.robotRadius) / DecayLength(p) == -x;
    }
  }

  lemma OneQuotient(a: real, l: real, x: real)
    requires l > 0.0 && x * l == a
    ensures -a / l == -x
  {
    assert (-x) * l == -a;
  }

  /** d is the distance from c to a nearest cell that an obstacle point hits. */
  ghost predicate NearestGap(p: MapParams, cells: nat, reso: real, robot: (real, real), pts: seq<(real, real)>,
                             c: Cell, d: real)
  {
    && d >= 0.0
    && (exists o :: HitBySome(p, cells, reso, robot, pts, o) && SquaredGap(reso, c, o) == Sq(d))
    && (forall o :: HitBySome(p, cells, reso, robot, pts, o) ==> SquaredGap(reso, c, o) >= Sq(d))
  }

  /** The value of every cell of an updated map from the obstacle points: the cost by distance of the
      nearest cell hit, and 0 when no cell is hit. */
  lemma MapIsExact(p: MapParams, m: Metric, exp: real -> real, cells: nat, reso: real, robot: (real, real),
                   pts: seq<(real, real)>, hmap: Option<seq<seq<Option<real>>>>, c: Cell, d: real)
    requires Euclidean(m) && reso > 0.0 && 0 <= c.x < cells && 0 <= c.y < cells
    ensures NearestGap(p, cells, reso, robot, pts, c, d) ==>
              Update(p, m, exp, cells, reso, robot, pts, hmap).gmap[c.x][c.y] == CostAt(p, exp, d)
    ensures (forall o :: !HitBySome(p, cells, reso, robot, pts, o)) ==>
              Update(p, m, exp, cells, reso, robot, pts, hmap).gmap[c.x][c.y] == 0.0
    ensures Update(p, m, exp, cells, reso, robot, pts, hmap).hmap == hmap
  {
    var occupied := Occupied(p, cells, robot.0 - p.halfWidth, robot.1 - p.halfWidth, reso, pts);
    if |occupied| > 0 {
      RasterIsExact(p, cells, reso, robot, pts, occupied[0]);
    }
    if NearestGap(p, cells, reso, robot, pts, c, d) {
      NearestIsGap(p, m, cells, reso, robot, pts, occupied, c, d);
    }
  }

  lemma NearestIsGap(p: MapParams, m: Metric, cells: nat, reso: real, robot: (real, real), pts: seq<(real, real)>,
                     occupied: seq<Cell>, c: Cell, d: real)
    requires Euclidean(m) && reso > 0.0 && NearestGap(p, cells, reso, robot, pts, c, d)
    requires occupied == Occupied(p, cells, robot.0 - p.halfWidth, robot.1 - p.halfWidth, reso, pts)
    ensures |occupied| > 0 && Metres(NearestHit(m, occupied, c), reso) == d
  {
    var o :| HitBySome(p, cells, reso, robot, pts, o) && SquaredGap(reso, c, o) == Sq(d);
    RasterIsExact(p, cells, reso, robot, pts, o);
    var i :| 0 <= i < |occupied| && occupied[i] == o;
    NearestHitIsMinimum(m, occupied, c);
    var j :| 0 <= j < |occupied| && NearestHit(m, occupied, c) == HitDistance(m, occupied[j], c);
    RasterIsExact(p, cells, reso, robot, pts, occupied[j]);
    GapIsSquared(m, reso, occupied[j], c);
    GapIsSquared(m, reso, o, c);
    ProductOrder(NearestHit(m, occupied, c), HitDistance(m, o, c), reso);
    SquaresOrder(Metres(HitDistance(m, o, c), reso), d);
    SquaresOrder(d, Metres(HitDistance(m, occupied[j], c), reso));
  }

  lemma GapIsSquared(m: Metric, reso: real, o: Cell, c: Cell)
    requires Euclidean(m) && reso > 0.0
    ensures Metres(HitDistance(m, o, c), reso) >= 0.0
    ensures Sq(Metres(HitDistance(m, o, c), reso)) == SquaredGap(reso, c, o)
  {
    ProductNonNegative(HitDistance(m, o, c), reso);
    SqOfProduct(HitDistance(m, o, c), reso);
  }

  /** Moving away from the obstacles never costs more. */
  lemma CostFalls(p: MapParams, exp: real -> real, near: real, far: real)
    requires Clipped(p) && Decaying(exp) && near <= far
    ensures CostAt(p, exp, far) <= CostAt(p, exp, near)
  {
    if far > p.robotRadius { SoftCostAtMost(p, exp, far); }
    if p.robotRadius < near {
      var l := DecayLength(p);
      QuotientSign(near - p.robotRadius, l);
      QuotientSign(far - p.robotRadius, l);
      QuotientOrder(near - p.robotRadius, far - p.robotRadius, l);
      var e, f := exp(-(near - p.robotRadius) / l), exp(-(far - p.robotRadius) / l);
      ProductNonNegative(p.softMax, e - f);
      ProductNonNegative(p.softMax, e);
    }
  }

  lemma QuotientOrder(a: real, b: real, l: real)
    requires l > 0.0 && a <= b
    ensures -b / l <= -a / l
  {
    var x, y := -a / l, -b / l;
    assert x * l == -a && y * l == -b;
    if y > x { ProductPositive(y - x, l); }
  }
}
