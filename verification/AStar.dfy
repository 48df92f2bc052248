/** The A* search of the planner over the costmap grid. */
module AStar {
  import opened Wrappers
  import opened Grids
  import opened BestFirst
  import opened Reals

  /** The grid as a graph: moves, their prices and the straight-line estimate to the goal. */
  ghost function GraphOf(s: Settings, g: Grid, m: Metric, goal: Cell): Graph
    requires WellFormed(g) && s.threshold != 0.0
  {
    Graph((a, b) => Step(s, g, a, b),
          (a, b) => if InGrid(g, b) then StepCost(s, g, m, a, b) else 0.0,
          c => H(g, m, c, goal))
  }

  lemma GridIsConsistent(s: Settings, g: Grid, m: Metric, goal: Cell)
    requires WellFormed(g) && Sensible(s) && Euclidean(m)
    ensures Consistent(GraphOf(s, g, m, goal))
  {
    var graph := GraphOf(s, g, m, goal);
    forall a, b | graph.edge(a, b) ensures graph.h(a) <= graph.cost(a, b) + graph.h(b) {
      HIsConsistent(s, g, m, a, b, goal);
    }
  }

  /** Follows the parent chain back and turns it around. */
  method ExtractPath(goal: Node) returns (path: seq<Cell>)
    ensures path == Trail(goal)
  {
    var back := [];
    var node := Some(goal);
    while node.Some?
      invariant Trail(goal) == (if node.Some? then Trail(node.value) else []) + Reversed(back)
      decreases node
    {
      assert Reversed(back + [node.value.cell]) == [node.value.cell] + Reversed(back);
      back := back + [node.value.cell];
      node := node.value.parent;
    }
    path := Reversed(back);
  }

  function Reversed(p: seq<Cell>): (r: seq<Cell>)
    ensures |r| == |p| && forall i :: 0 <= i < |p| ==> r[i] == p[|p| - 1 - i]
  {
    seq(|p|, i requires 0 <= i < |p| => p[|p| - 1 - i])
  }

  /** All cells of the grid, and the start. */
  ghost function Universe(g: Grid, start: Cell): set<Cell> {
    (set x, y | 0 <= x < g.cells && 0 <= y < g.cells :: Cell(x, y)) + {start}
  }

  /** Entries for the open neighbours of a settled node. */
  method Neighbors(s: Settings, g: Grid, m: Metric, goal: Cell, current: Node, closed: map<Cell, real>, ghost start: Cell)
    returns (more: seq<Entry>)
    requires WellFormed(g) && Sensible(s) && current.cell in closed
    requires Genuine(GraphOf(s, g, m, goal), start, current)
    ensures Pushed(GraphOf(s, g, m, goal), start, Universe(g, start), current, closed, more)
  {
    ghost var graph := GraphOf(s, g, m, goal);
    more := [];
    for k := 0 to |MOTION|
      invariant OpenIsGenuine(graph, start, more)
      invariant Within(more, Universe(g, start))
      invariant forall j :: 0 <= j < k && graph.edge(current.cell, Move(current.cell, j)) && Move(current.cell, j) !in closed ==>
                  Pending(more, Move(current.cell, j), current.g + graph.cost(current.cell, Move(current.cell, j)))
    {
      var next := Move(current.cell, k);
      if !IsFree(s, g, next) { continue; }
      if MOTION[k].0 != 0 && MOTION[k].1 != 0 {
        if !IsFree(s, g, Cell(next.x, current.cell.y)) || !IsFree(s, g, Cell(current.cell.x, next.y)) { continue; }
      }
      if next in closed { continue; }
      var ng := current.g + StepCost(s, g, m, current.cell, next);
      var entry := Entry(ng + H(g, m, next, goal), Node(next, ng, Some(current)));
      PushKeeps(graph, current, closed, more, entry, k);
      more := more + [entry];
    }
    forall b | graph.edge(current.cell, b) && b !in closed
      ensures Pending(more, b, current.g + graph.cost(current.cell, b))
    {
      var k := NeighbourIsMove(current.cell, b);
    }
  }

  lemma PushKeeps(graph: Graph, current: Node, closed: map<Cell, real>, more: seq<Entry>, entry: Entry, k: nat)
    requires k < |MOTION| && entry.node.cell == Move(current.cell, k)
    requires entry.node.g == current.g + graph.cost(current.cell, entry.node.cell)
    requires forall j :: 0 <= j < k && graph.edge(current.cell, Move(current.cell, j)) && Move(current.cell, j) !in closed ==>
               Pending(more, Move(current.cell, j), current.g + graph.cost(current.cell, Move(current.cell, j)))
    ensures forall j :: 0 <= j <= k && graph.edge(current.cell, Move(current.cell, j)) && Move(current.cell, j) !in closed ==>
              Pending(more + [entry], Move(current.cell, j), current.g + graph.cost(current.cell, Move(current.cell, j)))
  {
    forall j | 0 <= j <= k && graph.edge(current.cell, Move(current.cell, j)) && Move(current.cell, j) !in closed
      ensures Pending(more + [entry], Move(current.cell, j), current.g + graph.cost(current.cell, Move(current.cell, j)))
    {
      if j < k {
        PendingMore(more, [entry], Move(current.cell, j), current.g + graph.cost(current.cell, Move(current.cell, j)));
      } else {
        assert (more + [entry])[|more|] == entry;
      }
    }
  }

  /** Any least entry may come off the heap; ties are broken arbitrarily. */
  method PopLeast(open: seq<Entry>) returns (i: nat)
    requires |open| > 0
    ensures Least(open, i)
  {
    ghost var least := SomeLeast(open);
    i :| 0 <= i < |open| && forall j :: 0 <= j < |open| ==> Before(open[i], open[j]);
  }

  /** Returns a path of least cost, or None exactly when there is no path. */
  method Search(s: Settings, g: Grid, m: Metric, start: Cell, goal: Cell) returns (path: Option<seq<Cell>>)
    requires WellFormed(g) && Sensible(s) && Euclidean(m)
    ensures var graph := GraphOf(s, g, m, goal);
            match path
            case Some(p) => Cheapest(graph, start, p, goal)
            case None => forall q :: !PathTo(graph, start, q, goal)
  {
    ghost var graph := GraphOf(s, g, m, goal);
    GridIsConsistent(s, g, m, goal);
    ghost var universe := Universe(g, start);
    var open := [Entry(H(g, m, start, goal), Node(start, 0.0, None))];
    var closed: map<Cell, real> := map[];
    SoundAtStart(graph, start, universe);
    while |open| > 0
      invariant Sound(graph, start, universe, closed, open)
      invariant goal !in closed
      decreases universe - closed.Keys, |open|
    {
      var i := PopLeast(open);
      var current := open[i].node;
      if current.cell in closed {
        DropStale(graph, start, universe, closed, open, i);
        open := Without(open, i);
        continue;
      }
      if current.cell == goal {
        var p := ExtractPath(current);
        TrailIsPath(graph, start, current);
        forall q | PathTo(graph, start, q, goal) ensures Cost(graph, p) <= Cost(graph, q) {
          LeastIsOptimal(graph, start, closed, open, i, q);
        }
        return Some(p);
      }
      var more := Neighbors(s, g, m, goal, current, closed[current.cell := current.g], start);
      Settle(graph, start, universe, closed, open, i, more);
      assert current.cell in universe - closed.Keys;
      closed := closed[current.cell := current.g];
      open := Without(open, i) + more;
    }
    assert open == [];
    ExhaustedMeansUnreachable(graph, start, closed, goal);
    path := None;
  }

  // ---- Cheapest in the raw values of the map ----

  /** rate is the price multiplier of every free cell, by the map alone: one plus a surcharge that is to
      the weight as the squared map value is to the squared threshold, or fixed where stepped over. */
  ghost predicate Rates(s: Settings, g: Grid, rate: Cell -> real)
    requires WellFormed(g)
  {
    forall c :: IsFree(s, g, c) ==> RateAt(s, g, c, rate(c))
  }

  ghost predicate RateAt(s: Settings, g: Grid, c: Cell, r: real)
    requires WellFormed(g) && InGrid(g, c)
  {
    if g.gmap[c.x][c.y] < s.threshold then (r - 1.0) * Sq(s.threshold) == s.weight * Sq(g.gmap[c.x][c.y])
    else r - 1.0 == s.weight * s.stepScale
  }

  /** len is the straight-line length of every move, in cells. */
  ghost predicate Measures(len: (Cell, Cell) -> real) {
    forall a, b :: Neighbours(a, b) ==> len(a, b) > 0.0 && Sq(len(a, b)) == Sq((b.x - a.x) as real) + Sq((b.y - a.y) as real)
  }

  function Paid(length: real, reso: real, rate: real): real { length * reso * rate }

  /** The sum over all moves of length in metres times the multiplier of the cell entered. */
  ghost function Total(g: Grid, rate: Cell -> real, len: (Cell, Cell) -> real, p: seq<Cell>): real {
    if |p| <= 1 then 0.0
    else
      var a, b := p[|p| - 2], p[|p| - 1];
      Total(g, rate, len, p[..|p| - 1]) + Paid(len(a, b), g.reso, rate(b))
  }

  lemma PriceIsRaw(s: Settings, g: Grid, m: Metric, rate: Cell -> real, len: (Cell, Cell) -> real, a: Cell, b: Cell)
    requires WellFormed(g) && Sensible(s) && Euclidean(m) && Rates(s, g, rate) && Measures(len) && Step(s, g, a, b)
    ensures StepCost(s, g, m, a, b) == Paid(len(a, b), g.reso, rate(b))
  {
    LengthIsRaw(m, len, a, b);
    assert RateAt(s, g, b, rate(b));
    RateIsRaw(s, g, b, rate(b));
  }

  lemma LengthIsRaw(m: Metric, len: (Cell, Cell) -> real, a: Cell, b: Cell)
    requires Euclidean(m) && Measures(len) && Neighbours(a, b)
    ensures len(a, b) == MoveCost(m, a, b)
  {
    MoveCostSquared(m, a, b);
    SquaresOrder(len(a, b), MoveCost(m, a, b));
    SquaresOrder(MoveCost(m, a, b), len(a, b));
  }

  lemma RateIsRaw(s: Settings, g: Grid, c: Cell, r: real)
    requires WellFormed(g) && Sensible(s) && IsFree(s, g, c) && RateAt(s, g, c, r)
    ensures r == CellCost(s, g, c)
  {
    SurchargeLaw(s, g, c);
    SquarePositive(s.threshold);
    SameQuotient(r - 1.0, CellCost(s, g, c) - 1.0, Sq(s.threshold));
  }

  lemma SameQuotient(x: real, y: real, t: real)
    requires t > 0.0
    ensures x * t == y * t ==> x == y
  {
    if x > y { ProductPositive(x - y, t); }
    if x < y { ProductPositive(y - x, t); }
  }

  lemma {:induction false} TotalIsCost(s: Settings, g: Grid, m: Metric, goal: Cell, rate: Cell -> real, len: (Cell, Cell) -> real,
                                       start: Cell, p: seq<Cell>)
    requires WellFormed(g) && Sensible(s) && Euclidean(m) && Rates(s, g, rate) && Measures(len)
    requires IsPath(GraphOf(s, g, m, goal), start, p)
    ensures Total(g, rate, len, p) == Cost(GraphOf(s, g, m, goal), p)
  {
    if |p| > 1 {
      var front := p[..|p| - 1];
      LastStep(s, g, m, goal, start, p);
      TotalIsCost(s, g, m, goal, rate, len, start, front);
      PriceIsRaw(s, g, m, rate, len, p[|p| - 2], p[|p| - 1]);
    }
  }

  lemma LastStep(s: Settings, g: Grid, m: Metric, goal: Cell, start: Cell, p: seq<Cell>)
    requires WellFormed(g) && s.threshold != 0.0 && IsPath(GraphOf(s, g, m, goal), start, p) && |p| > 1
    ensures IsPath(GraphOf(s, g, m, goal), start, p[..|p| - 1])
    ensures Step(s, g, p[|p| - 2], p[|p| - 1])
    ensures var graph := GraphOf(s, g, m, goal);
            Cost(graph, p) == Cost(graph, p[..|p| - 1]) + StepCost(s, g, m, p[|p| - 2], p[|p| - 1])
  {
    var graph, front := GraphOf(s, g, m, goal), p[..|p| - 1];
    assert graph.edge(p[|p| - 2], p[|p| - 2 + 1]);
    forall i | 0 <= i < |front| - 1 ensures graph.edge(front[i], front[i + 1]) {
      assert graph.edge(p[i], p[i + 1]);
    }
  }

  /** What is found leads from the start to the goal by moves, and is cheapest in the raw values of the map:
      whatever path of moves leads to the goal, its lengths and multipliers add up to no less. */
  lemma CheapestByTheMap(s: Settings, g: Grid, m: Metric, start: Cell, goal: Cell, p: seq<Cell>, q: seq<Cell>,
                         rate: Cell -> real, len: (Cell, Cell) -> real)
    requires WellFormed(g) && Sensible(s) && Euclidean(m) && Rates(s, g, rate) && Measures(len)
    requires Cheapest(GraphOf(s, g, m, goal), start, p, goal)
    requires |q| > 0 && q[0] == start && q[|q| - 1] == goal && forall i :: 0 <= i < |q| - 1 ==> Step(s, g, q[i], q[i + 1])
    ensures |p| > 0 && p[0] == start && p[|p| - 1] == goal && forall i :: 0 <= i < |p| - 1 ==> Step(s, g, p[i], p[i + 1])
    ensures Total(g, rate, len, p) <= Total(g, rate, len, q)
  {
    var graph := GraphOf(s, g, m, goal);
    forall i | 0 <= i < |q| - 1 ensures graph.edge(q[i], q[i + 1]) {
      assert Step(s, g, q[i], q[i + 1]);
    }
    assert PathTo(graph, start, q, goal);
    forall i | 0 <= i < |p| - 1 ensures Step(s, g, p[i], p[i + 1]) {
      assert graph.edge(p[i], p[i + 1]);
    }
    TotalIsCost(s, g, m, goal, rate, len, start, p);
    TotalIsCost(s, g, m, goal, rate, len, start, q);
  }
}
