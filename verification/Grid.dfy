/** The costmap grid as the planner reads it: free cells, steppable cells, cell costs and moves. */
module Grids {
  import opened Reals
  import opened Wrappers

  datatype Cell = Cell(x: int, y: int)

  /** gmap holds obstacle costs; hmap, when present, the highest hit per cell (None where no hit). */
  datatype Grid = Grid(cells: nat, reso: real, minx: real, miny: real,
                       gmap: seq<seq<real>>, hmap: Option<seq<seq<Option<real>>>>)

  datatype Settings = Settings(threshold: real, weight: real, stepHeight: real, stepScale: real)

  /** Lengths the planner takes from the floating-point library. */
  datatype Metric = Metric(hypot: (int, int) -> real, root2: real)

  ghost predicate Euclidean(m: Metric) {
    && m.root2 > 0.0 && m.root2 * m.root2 == 2.0
    && (forall x, y :: m.hypot(x, y) >= 0.0)
    && (forall x, y :: m.hypot(x, y) * m.hypot(x, y) == Sq(x as real) + Sq(y as real))
  }

  ghost predicate WellFormed(g: Grid) {
    && g.reso > 0.0
    && |g.gmap| == g.cells && (forall x :: 0 <= x < g.cells ==> |g.gmap[x]| == g.cells)
    && (g.hmap.Some? ==> |g.hmap.value| == g.cells && (forall x :: 0 <= x < g.cells ==> |g.hmap.value[x]| == g.cells))
  }

  ghost predicate Sensible(s: Settings) {
    s.threshold > 0.0 && s.weight >= 0.0 && s.stepScale >= 0.0
  }

  predicate InGrid(g: Grid, c: Cell) {
    0 <= c.x < g.cells && 0 <= c.y < g.cells
  }

  predicate IsSteppable(s: Settings, g: Grid, c: Cell)
    requires WellFormed(g) && InGrid(g, c)
  {
    if s.stepHeight <= 0.0 || g.hmap.None? then false
    else
      var z := g.hmap.value[c.x][c.y];
      z.Some? && z.value < s.stepHeight
  }

  predicate IsFree(s: Settings, g: Grid, c: Cell)
    requires WellFormed(g)
  {
    InGrid(g, c) && (g.gmap[c.x][c.y] < s.threshold || IsSteppable(s, g, c))
  }

  function CellCost(s: Settings, g: Grid, c: Cell): real
    requires WellFormed(g) && InGrid(g, c) && s.threshold != 0.0
  {
    var prob := g.gmap[c.x][c.y];
    if prob >= s.threshold && IsSteppable(s, g, c) then
      1.0 + s.weight * s.stepScale
    else
      var normalized := prob / s.threshold;
      1.0 + s.weight * (normalized * normalized)
  }

  /** The eight moves in the order they are tried; diagonal moves cost root2. */
  const MOTION: seq<(int, int)> := [(1, 0), (0, 1), (-1, 0), (0, -1), (1, 1), (1, -1), (-1, 1), (-1, -1)]

  function Move(c: Cell, k: nat): Cell
    requires k < |MOTION|
  {
    Cell(c.x + MOTION[k].0, c.y + MOTION[k].1)
  }

  predicate Neighbours(a: Cell, b: Cell) {
    a != b && -1 <= b.x - a.x <= 1 && -1 <= b.y - a.y <= 1
  }

  /** Every neighbour is reached by exactly the move of its offset. */
  lemma NeighbourIsMove(a: Cell, b: Cell) returns (k: nat)
    requires Neighbours(a, b)
    ensures k < |MOTION| && b == Move(a, k)
  {
    var d := (b.x - a.x, b.y - a.y);
    k := if d == (1, 0) then 0 else if d == (0, 1) then 1 else if d == (-1, 0) then 2 else if d == (0, -1) then 3
         else if d == (1, 1) then 4 else if d == (1, -1) then 5 else if d == (-1, 1) then 6 else 7;
  }

  /** A move of the planner: into a free cell, diagonally only past two free corners. */
  predicate Step(s: Settings, g: Grid, a: Cell, b: Cell)
    requires WellFormed(g)
  {
    && Neighbours(a, b)
    && IsFree(s, g, b)
    && (a.x != b.x && a.y != b.y ==> IsFree(s, g, Cell(b.x, a.y)) && IsFree(s, g, Cell(a.x, b.y)))
  }

  function MoveCost(m: Metric, a: Cell, b: Cell): real {
    if a.x != b.x && a.y != b.y then m.root2 else 1.0
  }

  function StepCost(s: Settings, g: Grid, m: Metric, a: Cell, b: Cell): real
    requires WellFormed(g) && InGrid(g, b) && s.threshold != 0.0
  {
    PricedMove(m, g.reso, a, b, CellCost(s, g, b))
  }

  function PricedMove(m: Metric, reso: real, a: Cell, b: Cell, cost: real): real {
    MoveCost(m, a, b) * reso * cost
  }

  function H(g: Grid, m: Metric, c: Cell, goal: Cell): real {
    m.hypot(goal.x - c.x, goal.y - c.y) * g.reso
  }

  lemma CellCostAtLeastOne(s: Settings, g: Grid, c: Cell)
    requires WellFormed(g) && Sensible(s) && InGrid(g, c)
    ensures CellCost(s, g, c) >= 1.0
  {
    var normalized := g.gmap[c.x][c.y] / s.threshold;
    ProductNonNegative(s.weight, s.stepScale);
    assert normalized * normalized >= 0.0;
    ProductNonNegative(s.weight, normalized * normalized);
  }

  lemma SquaresOrder(x: real, y: real)
    requires y >= 0.0 && Sq(x) <= Sq(y)
    ensures x <= y
  {
    var d, e := x - y, x + y;
    assert d * e == (x - y) * x + (x - y) * y == Sq(x) - Sq(y);
    if d > 0.0 { ProductPositive(d, e); }
  }

  /** Cauchy-Schwarz in the plane. */
  lemma DotBound(a: real, b: real, u: real, v: real, r: real, s: real)
    requires r >= 0.0 && s >= 0.0 && Sq(r) == Sq(a) + Sq(b) && Sq(s) == Sq(u) + Sq(v)
    ensures a * u + b * v <= r * s
  {
    var d, c, p := a * u + b * v, a * v - b * u, r * s;
    Lagrange(a, b, u, v, d, c);
    SqOfProduct(r, s);
    EqualProducts(Sq(r), Sq(a) + Sq(b), Sq(s), Sq(u) + Sq(v));
    ProductNonNegative(r, s);
    LegIsShorter(d, c, p);
  }

  lemma LegIsShorter(d: real, c: real, p: real)
    requires Sq(d) + Sq(c) == Sq(p) && p >= 0.0
    ensures d <= p
  {
    SquaresOrder(d, p);
  }

  lemma Lagrange(a: real, b: real, u: real, v: real, d: real, c: real)
    requires d == a * u + b * v && c == a * v - b * u
    ensures Sq(d) + Sq(c) == (Sq(a) + Sq(b)) * (Sq(u) + Sq(v))
  {
  }

  lemma SqOfProduct(x: real, y: real)
    ensures Sq(x * y) == Sq(x) * Sq(y)
  {
  }

  lemma EqualProducts(x: real, x': real, y: real, y': real)
    requires x == x' && y == y'
    ensures x * y == x' * y'
  {
  }

  lemma Triangle(a: real, b: real, u: real, v: real, r: real, s: real, t: real)
    requires r >= 0.0 && s >= 0.0 && t >= 0.0
    requires Sq(r) == Sq(a) + Sq(b) && Sq(s) == Sq(u) + Sq(v) && Sq(t) == Sq(a + u) + Sq(b + v)
    ensures t <= r + s
  {
    DotBound(a, b, u, v, r, s);
    SumSquared(r, s);
    SumSquared(a, u);
    SumSquared(b, v);
    SquaresOrder(t, r + s);
  }

  lemma SumSquared(x: real, y: real)
    ensures Sq(x + y) == Sq(x) + 2.0 * (x * y) + Sq(y)
  {
  }

  lemma MoveCostSquared(m: Metric, a: Cell, b: Cell)
    requires Euclidean(m) && Neighbours(a, b)
    ensures Sq(MoveCost(m, a, b)) == Sq((b.x - a.x) as real) + Sq((b.y - a.y) as real) && MoveCost(m, a, b) > 0.0
  {
    assert (b.x - a.x == -1 || b.x - a.x == 0 || b.x - a.x == 1) && (b.y - a.y == -1 || b.y - a.y == 0 || b.y - a.y == 1);
  }

  /** The straight-line estimate drops by at most the length of a move. */
  lemma HypotStep(m: Metric, a: Cell, b: Cell, goal: Cell)
    requires Euclidean(m) && Neighbours(a, b)
    ensures m.hypot(goal.x - a.x, goal.y - a.y) <= m.hypot(goal.x - b.x, goal.y - b.y) + MoveCost(m, a, b)
  {
    MoveCostSquared(m, a, b);
    var p, q, u, v := (goal.x - b.x) as real, (goal.y - b.y) as real, (b.x - a.x) as real, (b.y - a.y) as real;
    assert (goal.x - a.x) as real == p + u && (goal.y - a.y) as real == q + v;
    Triangle(p, q, u, v, m.hypot(goal.x - b.x, goal.y - b.y), MoveCost(m, a, b), m.hypot(goal.x - a.x, goal.y - a.y));
  }

  /** Consistency of the heuristic: along a move it drops by at most what the move costs. */
  lemma HIsConsistent(s: Settings, g: Grid, m: Metric, a: Cell, b: Cell, goal: Cell)
    requires WellFormed(g) && Sensible(s) && Euclidean(m) && Step(s, g, a, b)
    ensures H(g, m, a, goal) <= StepCost(s, g, m, a, b) + H(g, m, b, goal)
  {
    CellCostAtLeastOne(s, g, b);
    HypotStep(m, a, b, goal);
    MoveCostSquared(m, a, b);
    PricedMoveConsistent(g, m, a, b, goal, CellCost(s, g, b));
  }

  lemma PricedMoveConsistent(g: Grid, m: Metric, a: Cell, b: Cell, goal: Cell, cost: real)
    requires g.reso > 0.0 && cost >= 1.0 && MoveCost(m, a, b) >= 0.0
    requires m.hypot(goal.x - a.x, goal.y - a.y) <= m.hypot(goal.x - b.x, goal.y - b.y) + MoveCost(m, a, b)
    ensures H(g, m, a, goal) <= PricedMove(m, g.reso, a, b, cost) + H(g, m, b, goal)
  {
    ScaledStep(m.hypot(goal.x - a.x, goal.y - a.y), m.hypot(goal.x - b.x, goal.y - b.y), MoveCost(m, a, b), g.reso, cost);
  }

  lemma ScaledStep(ha: real, hb: real, mv: real, reso: real, cc: real)
    requires ha <= hb + mv && mv >= 0.0 && reso >= 0.0 && cc >= 1.0
    ensures ha * reso <= mv * reso * cc + hb * reso
  {
    ProductNonNegative(hb + mv - ha, reso);
    ProductNonNegative(mv, reso);
    ProductNonNegative(mv * reso, cc - 1.0);
    assert (mv * reso) * (cc - 1.0) == mv * reso * cc - mv * reso;
    assert (hb + mv - ha) * reso == hb * reso + mv * reso - ha * reso;
  }

  // ---- What the prices and the moves mean, in the raw values of the map ----

  /** Traversable: in the grid, and cheap enough or low enough to step over. */
  lemma FreeIsExact(s: Settings, g: Grid, c: Cell)
    requires WellFormed(g)
    ensures IsFree(s, g, c) <==>
            && 0 <= c.x < g.cells && 0 <= c.y < g.cells
            && (g.gmap[c.x][c.y] >= s.threshold ==>
                  && s.stepHeight > 0.0 && g.hmap.Some? && g.hmap.value[c.x][c.y].Some?
                  && g.hmap.value[c.x][c.y].value < s.stepHeight)
  {
  }

  /** The surcharge of an open cell, without division: it is to the weight as the square of the map
      value is to the square of the threshold. A stepped-over cell has the fixed surcharge. */
  lemma SurchargeLaw(s: Settings, g: Grid, c: Cell)
    requires WellFormed(g) && Sensible(s) && IsFree(s, g, c)
    ensures var p, extra := g.gmap[c.x][c.y], CellCost(s, g, c) - 1.0;
            if p < s.threshold then extra * Sq(s.threshold) == s.weight * Sq(p) else extra == s.weight * s.stepScale
  {
    var p := g.gmap[c.x][c.y];
    if p < s.threshold { SurchargeScales(s.weight, p, s.threshold); }
  }

  lemma SurchargeScales(weight: real, p: real, threshold: real)
    requires threshold > 0.0
    ensures weight * ((p / threshold) * (p / threshold)) * Sq(threshold) == weight * Sq(p)
  {
    var n := p / threshold;
    assert n * threshold == p;
    assert (n * n) * Sq(threshold) == Sq(n * threshold);
  }

  /** An open cell is free of surcharge exactly when nothing weighs on it. */
  lemma NoSurchargeIsExact(s: Settings, g: Grid, c: Cell)
    requires WellFormed(g) && Sensible(s) && IsFree(s, g, c) && g.gmap[c.x][c.y] < s.threshold
    ensures CellCost(s, g, c) == 1.0 <==> s.weight == 0.0 || g.gmap[c.x][c.y] == 0.0
  {
    SurchargeLaw(s, g, c);
    var p := g.gmap[c.x][c.y];
    ProductPositive(s.threshold, s.threshold);
    if s.weight > 0.0 && p != 0.0 {
      SquarePositive(p);
      ProductPositive(s.weight, Sq(p));
    }
    if CellCost(s, g, c) > 1.0 { ProductPositive(CellCost(s, g, c) - 1.0, Sq(s.threshold)); }
  }

  lemma SquarePositive(p: real)
    requires p != 0.0
    ensures Sq(p) > 0.0
  {
    if p > 0.0 { SquareGrows(0.0, p); } else { SquareGrows(0.0, -p); }
  }

  /** With a positive weight the price of an open cell grows with its map value, four times the
      surcharge for twice the value, and stays below one full weight. */
  lemma SurchargeGrows(s: Settings, g: Grid, c: Cell, h: Grid, d: Cell)
    requires WellFormed(g) && WellFormed(h) && Sensible(s) && s.weight > 0.0 && IsFree(s, g, c) && IsFree(s, h, d)
    requires 0.0 <= g.gmap[c.x][c.y] < h.gmap[d.x][d.y] < s.threshold
    ensures CellCost(s, g, c) < CellCost(s, h, d) < 1.0 + s.weight
    ensures h.gmap[d.x][d.y] == 2.0 * g.gmap[c.x][c.y] ==> CellCost(s, h, d) - 1.0 == 4.0 * (CellCost(s, g, c) - 1.0)
  {
    SurchargeLaw(s, g, c);
    SurchargeLaw(s, h, d);
    SurchargesOrder(s.weight, s.threshold, g.gmap[c.x][c.y], h.gmap[d.x][d.y], CellCost(s, g, c) - 1.0, CellCost(s, h, d) - 1.0);
  }

  lemma SurchargesOrder(w: real, t: real, p: real, q: real, x: real, y: real)
    requires w > 0.0 && 0.0 <= p < q < t && x * Sq(t) == w * Sq(p) && y * Sq(t) == w * Sq(q)
    ensures x < y < w
    ensures q == 2.0 * p ==> y == 4.0 * x
  {
    ProductPositive(t, t);
    SquareGrows(p, q);
    SquareGrows(q, t);
    SameFactor(w, Sq(p), Sq(q), x, y, Sq(t));
    SameFactor(w, Sq(q), Sq(t), y, w, Sq(t));
    if q == 2.0 * p { FourTimes(w, Sq(p), Sq(q), x, y, Sq(t)); }
  }

  /** As the map value nears the threshold the surcharge nears the weight: from the share 1 - eps of the
      threshold on it is at least that share squared of the weight. */
  lemma SurchargeNearsWeight(s: Settings, g: Grid, c: Cell, eps: real)
    requires WellFormed(g) && Sensible(s) && IsFree(s, g, c) && 0.0 <= eps <= 1.0
    requires (1.0 - eps) * s.threshold <= g.gmap[c.x][c.y] < s.threshold
    ensures s.weight * Sq(1.0 - eps) <= CellCost(s, g, c) - 1.0 <= s.weight
  {
    SurchargeLaw(s, g, c);
    SurchargeWithin(s.weight, s.threshold, g.gmap[c.x][c.y], 1.0 - eps, CellCost(s, g, c) - 1.0);
  }

  lemma SurchargeWithin(w: real, t: real, p: real, k: real, x: real)
    requires w >= 0.0 && t > 0.0 && k >= 0.0 && k * t <= p < t && x * Sq(t) == w * Sq(p)
    ensures w * Sq(k) <= x <= w
  {
    var share := k * t;
    ProductPositive(t, t);
    ProductNonNegative(k, t);
    if share < p { SquareGrows(share, p); }
    SquareGrows(p, t);
    SqOfProduct(k, t);
    ShareOf(w, Sq(k), Sq(t), Sq(share));
    FactorKept(w, Sq(share), Sq(p), w * Sq(k), x, Sq(t));
    FactorKept(w, Sq(p), Sq(t), x, w, Sq(t));
  }

  lemma ShareOf(w: real, u: real, t: real, a: real)
    requires a == u * t
    ensures w * u * t == w * a
  {
  }

  lemma FactorKept(w: real, a: real, b: real, x: real, y: real, t: real)
    requires w >= 0.0 && t > 0.0 && a <= b && x * t == w * a && y * t == w * b
    ensures x <= y
  {
    ProductNonNegative(w, b - a);
    if x > y { ProductPositive(x - y, t); }
  }

  lemma SquareGrows(p: real, q: real)
    requires 0.0 <= p < q
    ensures Sq(p) < Sq(q)
  {
    ProductPositive(q - p, q);
    ProductNonNegative(q - p, p);
  }

  lemma SameFactor(w: real, a: real, b: real, x: real, y: real, t: real)
    requires w > 0.0 && t > 0.0 && a < b && x * t == w * a && y * t == w * b
    ensures x < y
  {
    ProductPositive(w, b - a);
    if x >= y { ProductNonNegative(x - y, t); }
  }

  lemma FourTimes(w: real, a: real, b: real, x: real, y: real, t: real)
    requires t > 0.0 && b == 4.0 * a && x * t == w * a && y * t == w * b
    ensures y == 4.0 * x
  {
    assert w * b == 4.0 * (w * a);
    assert (y - 4.0 * x) * t == 0.0;
  }

  /** The price of a move is its length in metres times the multiplier of the cell entered. */
  lemma StepCostSquared(s: Settings, g: Grid, m: Metric, a: Cell, b: Cell)
    requires WellFormed(g) && Sensible(s) && Euclidean(m) && Neighbours(a, b) && InGrid(g, b)
    ensures StepCost(s, g, m, a, b) > 0.0
    ensures Sq(StepCost(s, g, m, a, b))
            == (Sq((b.x - a.x) as real) + Sq((b.y - a.y) as real)) * Sq(g.reso) * Sq(CellCost(s, g, b))
  {
    MoveCostSquared(m, a, b);
    CellCostAtLeastOne(s, g, b);
    var l, r, k := MoveCost(m, a, b), g.reso, CellCost(s, g, b);
    ProductPositive(l, r);
    ProductPositive(l * r, k);
    SqOfProduct(l * r, k);
    SqOfProduct(l, r);
  }

  /** The estimate is the straight-line distance in metres. */
  lemma EstimateSquared(g: Grid, m: Metric, c: Cell, goal: Cell)
    requires WellFormed(g) && Euclidean(m)
    ensures H(g, m, c, goal) >= 0.0
    ensures Sq(H(g, m, c, goal)) == (Sq((goal.x - c.x) as real) + Sq((goal.y - c.y) as real)) * Sq(g.reso)
  {
    var d := m.hypot(goal.x - c.x, goal.y - c.y);
    ProductNonNegative(d, g.reso);
    SqOfProduct(d, g.reso);
  }

  /** A move: to one of the eight cells around, itself free, and not diagonally past a blocked corner. */
  lemma StepIsExact(s: Settings, g: Grid, a: Cell, b: Cell)
    requires WellFormed(g)
    ensures Step(s, g, a, b) <==>
            && IsFree(s, g, b)
            && ((b == Cell(a.x + 1, a.y) || b == Cell(a.x - 1, a.y) || b == Cell(a.x, a.y + 1) || b == Cell(a.x, a.y - 1))
                || ((b == Cell(a.x + 1, a.y + 1) || b == Cell(a.x + 1, a.y - 1)
                     || b == Cell(a.x - 1, a.y + 1) || b == Cell(a.x - 1, a.y - 1))
                    && IsFree(s, g, Cell(a.x, b.y)) && IsFree(s, g, Cell(b.x, a.y))))
  {
  }
}
