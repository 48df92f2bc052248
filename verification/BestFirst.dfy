/** Best-first search with lazy deletion over an abstract graph: what the pending entries and
    the closed cells promise, and why a popped cell is settled at its least cost. */
module BestFirst {
  import opened Wrappers
  import opened Grids

  datatype Graph = Graph(edge: (Cell, Cell) -> bool, cost: (Cell, Cell) -> real, h: Cell -> real)

  /** A search node remembers its cell, its cost from the start and how it was reached. */
  datatype Node = Node(cell: Cell, g: real, parent: Option<Node>)

  /** A pending entry, keyed by cost so far plus estimate. */
  datatype Entry = Entry(f: real, node: Node)

  ghost predicate Consistent(graph: Graph) {
    forall a, b :: graph.edge(a, b) ==> graph.h(a) <= graph.cost(a, b) + graph.h(b)
  }

  ghost predicate IsPath(graph: Graph, start: Cell, p: seq<Cell>) {
    |p| > 0 && p[0] == start && forall i :: 0 <= i < |p| - 1 ==> graph.edge(p[i], p[i + 1])
  }

  ghost predicate PathTo(graph: Graph, start: Cell, p: seq<Cell>, c: Cell) {
    IsPath(graph, start, p) && p[|p| - 1] == c
  }

  ghost function Cost(graph: Graph, p: seq<Cell>): real {
    if |p| <= 1 then 0.0 else Cost(graph, p[..|p| - 1]) + graph.cost(p[|p| - 2], p[|p| - 1])
  }

  /** A path to c that no other path to c undercuts. */
  ghost predicate Cheapest(graph: Graph, start: Cell, p: seq<Cell>, c: Cell) {
    PathTo(graph, start, p, c) && forall q :: PathTo(graph, start, q, c) ==> Cost(graph, p) <= Cost(graph, q)
  }

  /** The cells from the root of the parent chain to the node. */
  function Trail(n: Node): (p: seq<Cell>)
    ensures |p| > 0 && p[|p| - 1] == n.cell
  {
    match n.parent
    case None => [n.cell]
    case Some(q) => Trail(q) + [n.cell]
  }

  ghost predicate Genuine(graph: Graph, start: Cell, n: Node) {
    match n.parent
    case None => n.cell == start && n.g == 0.0
    case Some(q) => Genuine(graph, start, q) && graph.edge(q.cell, n.cell) && n.g == q.g + graph.cost(q.cell, n.cell)
  }

  lemma {:induction false} TrailIsPath(graph: Graph, start: Cell, n: Node)
    requires Genuine(graph, start, n)
    ensures PathTo(graph, start, Trail(n), n.cell) && Cost(graph, Trail(n)) == n.g
  {
    match n.parent
    case None =>
    case Some(q) =>
      TrailIsPath(graph, start, q);
      Extend(graph, start, Trail(q), n.cell);
  }

  /** One more edge at the end of a path. */
  lemma Extend(graph: Graph, start: Cell, p: seq<Cell>, c: Cell)
    requires IsPath(graph, start, p) && graph.edge(p[|p| - 1], c)
    ensures PathTo(graph, start, p + [c], c) && Cost(graph, p + [c]) == Cost(graph, p) + graph.cost(p[|p| - 1], c)
  {
    assert (p + [c])[..|p|] == p;
  }

  ghost predicate Pending(open: seq<Entry>, c: Cell, bound: real) {
    exists i :: 0 <= i < |open| && open[i].node.cell == c && open[i].node.g <= bound
  }

  ghost predicate OpenIsGenuine(graph: Graph, start: Cell, open: seq<Entry>) {
    forall i :: 0 <= i < |open| ==>
                  Genuine(graph, start, open[i].node) && open[i].f == open[i].node.g + graph.h(open[i].node.cell)
  }

  ghost predicate ClosedIsOptimal(graph: Graph, start: Cell, closed: map<Cell, real>) {
    forall c, p :: c in closed && PathTo(graph, start, p, c) ==> closed[c] <= Cost(graph, p)
  }

  /** Each edge out of a closed cell leads to a closed cell or to a pending entry that is no
      dearer than going along that edge. */
  ghost predicate Frontier(graph: Graph, start: Cell, closed: map<Cell, real>, open: seq<Entry>) {
    && (start in closed || Pending(open, start, 0.0))
    && (forall a, b :: a in closed && graph.edge(a, b) ==> b in closed || Pending(open, b, closed[a] + graph.cost(a, b)))
  }

  /** The search invariant. */
  ghost predicate Sound(graph: Graph, start: Cell, universe: set<Cell>, closed: map<Cell, real>, open: seq<Entry>) {
    && OpenIsGenuine(graph, start, open)
    && ClosedIsOptimal(graph, start, closed)
    && Frontier(graph, start, closed, open)
    && Within(open, universe)
  }

  ghost predicate Within(open: seq<Entry>, universe: set<Cell>) {
    forall i :: 0 <= i < |open| ==> open[i].node.cell in universe
  }

  lemma SoundAtStart(graph: Graph, start: Cell, universe: set<Cell>)
    requires start in universe
    ensures Sound(graph, start, universe, map[], [Entry(graph.h(start), Node(start, 0.0, None))])
  {
    var open := [Entry(graph.h(start), Node(start, 0.0, None))];
    assert open[0].node.cell == start;
    assert Pending(open, start, 0.0);
  }

  /** Lexicographic order of entries: by key, then by cost from the start. */
  predicate Before(a: Entry, b: Entry) {
    a.f < b.f || (a.f == b.f && a.node.g <= b.node.g)
  }

  ghost predicate Least(open: seq<Entry>, i: nat) {
    i < |open| && forall j :: 0 <= j < |open| ==> Before(open[i], open[j])
  }

  lemma {:induction false} SomeLeast(open: seq<Entry>) returns (i: nat)
    requires |open| > 0
    ensures Least(open, i)
  {
    i := 0;
    for k := 1 to |open|
      invariant 0 <= i < k && forall j :: 0 <= j < k ==> Before(open[i], open[j])
    {
      if !Before(open[i], open[k]) { i := k; }
    }
  }

  /** Cost so far plus estimate does not drop along a path. */
  lemma {:induction false} EstimateGrows(graph: Graph, start: Cell, p: seq<Cell>, j: nat)
    requires Consistent(graph) && IsPath(graph, start, p) && j < |p|
    ensures Cost(graph, p[..j + 1]) + graph.h(p[j]) <= Cost(graph, p) + graph.h(p[|p| - 1])
    decreases |p| - j
  {
    if j == |p| - 1 {
      assert p[..j + 1] == p;
    } else {
      EstimateGrows(graph, start, p, j + 1);
      var q := p[..j + 2];
      assert q[..|q| - 1] == p[..j + 1];
      assert graph.edge(p[j], p[j + 1]);
    }
  }

  /** On every path to an unsettled cell lies a pending entry that is no dearer than the path up to there. */
  lemma FirstUnsettled(graph: Graph, start: Cell, closed: map<Cell, real>, open: seq<Entry>, p: seq<Cell>)
    returns (j: nat, k: nat)
    requires ClosedIsOptimal(graph, start, closed) && Frontier(graph, start, closed, open)
    requires IsPath(graph, start, p) && p[|p| - 1] !in closed
    ensures j < |p| && p[j] !in closed
    ensures k < |open| && open[k].node.cell == p[j] && open[k].node.g <= Cost(graph, p[..j + 1])
  {
    j := 0;
    while p[j] in closed
      invariant 0 <= j < |p|
      invariant forall i :: 0 <= i < j ==> p[i] in closed
      decreases |p| - j
    {
      j := j + 1;
    }
    if j == 0 {
      k :| 0 <= k < |open| && open[k].node.cell == start && open[k].node.g <= 0.0;
    } else {
      var a, b, q := p[j - 1], p[j], p[..j + 1];
      assert graph.edge(p[j - 1], p[j - 1 + 1]);
      assert q[..|q| - 1] == p[..j];
      assert PathTo(graph, start, p[..j], a);
      assert Pending(open, b, closed[a] + graph.cost(a, b));
      k :| 0 <= k < |open| && open[k].node.cell == b && open[k].node.g <= closed[a] + graph.cost(a, b);
    }
  }

  /** A least pending entry of an unsettled cell has reached it at least cost. */
  lemma LeastIsOptimal(graph: Graph, start: Cell, closed: map<Cell, real>, open: seq<Entry>, i: nat, p: seq<Cell>)
    requires Consistent(graph) && OpenIsGenuine(graph, start, open)
    requires ClosedIsOptimal(graph, start, closed) && Frontier(graph, start, closed, open)
    requires Least(open, i) && open[i].node.cell !in closed
    requires PathTo(graph, start, p, open[i].node.cell)
    ensures open[i].node.g <= Cost(graph, p)
  {
    var j, k := FirstUnsettled(graph, start, closed, open, p);
    EstimateGrows(graph, start, p, j);
    assert Before(open[i], open[k]);
  }

  /** With nothing pending, everything reachable is closed. */
  lemma ExhaustedMeansUnreachable(graph: Graph, start: Cell, closed: map<Cell, real>, c: Cell)
    requires ClosedIsOptimal(graph, start, closed) && Frontier(graph, start, closed, []) && c !in closed
    ensures forall p :: !PathTo(graph, start, p, c)
  {
    forall p ensures !PathTo(graph, start, p, c) {
      if PathTo(graph, start, p, c) {
        var j, k := FirstUnsettled(graph, start, closed, [], p);
      }
    }
  }

  function Without(open: seq<Entry>, i: nat): seq<Entry>
    requires i < |open|
  {
    open[..i] + open[i + 1..]
  }

  lemma PendingWithout(open: seq<Entry>, i: nat, c: Cell, bound: real)
    requires i < |open| && open[i].node.cell != c && Pending(open, c, bound)
    ensures Pending(Without(open, i), c, bound)
  {
    var k :| 0 <= k < |open| && open[k].node.cell == c && open[k].node.g <= bound;
    assert Without(open, i)[if k < i then k else k - 1] == open[k];
  }

  lemma PendingMore(open: seq<Entry>, more: seq<Entry>, c: Cell, bound: real)
    requires Pending(open, c, bound)
    ensures Pending(open + more, c, bound)
  {
    var k :| 0 <= k < |open| && open[k].node.cell == c && open[k].node.g <= bound;
    assert (open + more)[k] == open[k];
  }

  /** Dropping an entry of a settled cell leaves the frontier intact. */
  lemma DropStale(graph: Graph, start: Cell, universe: set<Cell>, closed: map<Cell, real>, open: seq<Entry>, i: nat)
    requires Sound(graph, start, universe, closed, open) && i < |open| && open[i].node.cell in closed
    ensures Sound(graph, start, universe, closed, Without(open, i))
  {
    if start !in closed { PendingWithout(open, i, start, 0.0); }
    forall a, b | a in closed && graph.edge(a, b) && b !in closed
      ensures Pending(Without(open, i), b, closed[a] + graph.cost(a, b))
    {
      PendingWithout(open, i, b, closed[a] + graph.cost(a, b));
    }
  }

  /** The entries pushed when n is settled: one for every neighbour still open. */
  ghost predicate Pushed(graph: Graph, start: Cell, universe: set<Cell>, n: Node, closed: map<Cell, real>, more: seq<Entry>) {
    && OpenIsGenuine(graph, start, more)
    && Within(more, universe)
    && (forall b :: graph.edge(n.cell, b) ==> b in closed || Pending(more, b, n.g + graph.cost(n.cell, b)))
  }

  lemma Settle(graph: Graph, start: Cell, universe: set<Cell>, closed: map<Cell, real>, open: seq<Entry>, i: nat, more: seq<Entry>)
    requires Consistent(graph) && Sound(graph, start, universe, closed, open)
    requires Least(open, i) && open[i].node.cell !in closed
    requires var n := open[i].node; Pushed(graph, start, universe, n, closed[n.cell := n.g], more)
    ensures var n := open[i].node; Sound(graph, start, universe, closed[n.cell := n.g], Without(open, i) + more)
  {
    Expand(graph, start, closed, open, i, more);
  }

  /** Settling a popped cell and pushing an entry for each of its open neighbours. */
  lemma Expand(graph: Graph, start: Cell, closed: map<Cell, real>, open: seq<Entry>, i: nat, more: seq<Entry>)
    requires Consistent(graph) && OpenIsGenuine(graph, start, open)
    requires ClosedIsOptimal(graph, start, closed) && Frontier(graph, start, closed, open)
    requires Least(open, i) && open[i].node.cell !in closed
    requires var n := open[i].node; forall b :: graph.edge(n.cell, b) ==>
               b in closed || b == n.cell || Pending(more, b, n.g + graph.cost(n.cell, b))
    ensures var n := open[i].node;
            && ClosedIsOptimal(graph, start, closed[n.cell := n.g])
            && Frontier(graph, start, closed[n.cell := n.g], Without(open, i) + more)
  {
    var n := open[i].node;
    var closed', open' := closed[n.cell := n.g], Without(open, i) + more;
    forall c, p | c in closed' && PathTo(graph, start, p, c) ensures closed'[c] <= Cost(graph, p) {
      if c == n.cell { LeastIsOptimal(graph, start, closed, open, i, p); }
    }
    if start !in closed' {
      PendingWithout(open, i, start, 0.0);
      PendingMore(Without(open, i), more, start, 0.0);
    }
    forall a, b | a in closed' && graph.edge(a, b) && b !in closed'
      ensures Pending(open', b, closed'[a] + graph.cost(a, b))
    {
      var bound := closed'[a] + graph.cost(a, b);
      if a == n.cell {
        var k :| 0 <= k < |more| && more[k].node.cell == b && more[k].node.g <= bound;
        assert open'[|Without(open, i)| + k] == more[k];
      } else {
        PendingWithout(open, i, b, bound);
        PendingMore(Without(open, i), more, b, bound);
      }
    }
  }

  /** With a consistent estimate no round trip costs less than staying. */
  lemma StayingIsCheapest(graph: Graph, start: Cell)
    requires Consistent(graph)
    ensures Cheapest(graph, start, [start], start)
  {
    forall q | PathTo(graph, start, q, start) ensures 0.0 <= Cost(graph, q) {
      EstimateGrows(graph, start, q, 0);
      assert q[..1] == [start];
    }
  }
}
