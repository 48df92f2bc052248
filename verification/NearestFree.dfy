/** Breadth-first search for the free cell nearest to a given cell. */
module FreeCells {
  import opened Wrappers
  import opened Grids
  import opened Sight

  /** Chebyshev distance. */
  function Cheb(a: Cell, b: Cell): (d: int)
    ensures d >= 0
  {
    var dx, dy := Abs(a.x - b.x), Abs(a.y - b.y);
    if dx >= dy then dx else dy
  }

  /** Within distance d means within d along both axes. */
  lemma ChebIsSquare(a: Cell, b: Cell, d: int)
    ensures Cheb(a, b) <= d <==> -d <= b.x - a.x <= d && -d <= b.y - a.y <= d
  {
  }

  function Toward(from: int, to: int): int {
    if from < to then from + 1 else if from > to then from - 1 else from
  }

  /** One king's move back toward the start. */
  function Back(start: Cell, c: Cell): Cell {
    Cell(Toward(c.x, start.x), Toward(c.y, start.y))
  }

  lemma BackIsCloser(g: Grid, start: Cell, c: Cell)
    requires InGrid(g, start) && InGrid(g, c) && c != start
    ensures InGrid(g, Back(start, c)) && Neighbours(Back(start, c), c) && Cheb(start, Back(start, c)) == Cheb(start, c) - 1
  {
  }

  /** The search state: `done` cells were examined and rejected, their neighbours are all known,
      and the queue holds the rest of the visited cells in order of distance, spanning at most
      two layers. */
  ghost predicate Layered(s: Settings, g: Grid, start: Cell, visited: set<Cell>, done: set<Cell>, queue: seq<Cell>)
    requires WellFormed(g)
  {
    && start in visited && done <= visited
    && (forall c :: c in visited ==> InGrid(g, c))
    && (forall i :: 0 <= i < |queue| ==> queue[i] in visited)
    && (forall c :: c in visited ==> c in done || c in queue)
    && (forall c :: c in done ==> !IsFree(s, g, c))
    && (forall c, n :: c in done && Neighbours(c, n) && InGrid(g, n) ==> n in visited)
    && (forall i, j :: 0 <= i < j < |queue| ==> Cheb(start, queue[i]) <= Cheb(start, queue[j]))
    && (forall i :: 0 <= i < |queue| ==> Cheb(start, queue[i]) <= Cheb(start, queue[0]) + 1)
  }

  /** Every cell not yet visited is farther than the head of the queue; with an empty queue
      there is none. */
  lemma {:induction false} UnvisitedIsFarther(s: Settings, g: Grid, start: Cell, visited: set<Cell>, done: set<Cell>,
                                              queue: seq<Cell>, c: Cell)
    requires WellFormed(g) && Layered(s, g, start, visited, done, queue)
    requires InGrid(g, c) && c !in visited
    ensures |queue| > 0 && Cheb(start, c) > Cheb(start, queue[0])
    decreases Cheb(start, c)
  {
    BackIsCloser(g, start, c);
    var b := Back(start, c);
    if b !in visited {
      UnvisitedIsFarther(s, g, start, visited, done, queue, b);
    } else {
      assert b !in done;
      var i :| 0 <= i < |queue| && queue[i] == b;
      assert i > 0 ==> Cheb(start, queue[0]) <= Cheb(start, queue[i]);
    }
  }

  ghost function GridCells(g: Grid): set<Cell> {
    set x, y | 0 <= x < g.cells && 0 <= y < g.cells :: Cell(x, y)
  }

  /** The visited cells and the queue after the first n moves from head have been tried. */
  ghost function Enqueued(g: Grid, head: Cell, visited: set<Cell>, queue: seq<Cell>, n: nat): (r: (set<Cell>, seq<Cell>))
    requires n <= |MOTION|
    ensures visited <= r.0 && (visited <= GridCells(g) ==> r.0 <= GridCells(g))
    ensures r.0 == visited ==> r.1 == queue
  {
    if n == 0 then (visited, queue)
    else
      var (v, q) := Enqueued(g, head, visited, queue, n - 1);
      var c := Move(head, n - 1);
      if c !in v && InGrid(g, c) then (v + {c}, q + [c]) else (v, q)
  }

  /** The first free cell in the breadth-first order that the queue and the fixed order of moves give. */
  ghost function Bfs(s: Settings, g: Grid, visited: set<Cell>, queue: seq<Cell>): Option<Cell>
    requires WellFormed(g) && visited <= GridCells(g)
    decreases GridCells(g) - visited, |queue|
  {
    if queue == [] then None
    else if IsFree(s, g, queue[0]) then Some(queue[0])
    else
      var (v, q) := Enqueued(g, queue[0], visited, queue[1..], |MOTION|);
      Bfs(s, g, v, q)
  }

  ghost function FirstFree(s: Settings, g: Grid, start: Cell): Option<Cell>
    requires WellFormed(g) && InGrid(g, start)
  {
    Bfs(s, g, {start}, [start])
  }

  // ---- Which of several nearest cells it is ----

  /** The first free cell of a list. */
  ghost function FirstOf(s: Settings, g: Grid, cs: seq<Cell>): Option<Cell>
    requires WellFormed(g)
  {
    if cs == [] then None else if IsFree(s, g, cs[0]) then Some(cs[0]) else FirstOf(s, g, cs[1..])
  }

  lemma {:induction false} FirstOfConcat(s: Settings, g: Grid, a: seq<Cell>, b: seq<Cell>)
    requires WellFormed(g)
    ensures FirstOf(s, g, a + b) == if FirstOf(s, g, a).Some? then FirstOf(s, g, a) else FirstOf(s, g, b)
  {
    if a == [] {
      assert a + b == b;
    } else {
      FirstOfConcat(s, g, a[1..], b);
      assert (a + b)[1..] == a[1..] + b;
    }
  }

  /** The front of the queue is looked at in order before anything queued behind it. */
  lemma {:induction false} FrontFirst(s: Settings, g: Grid, visited: set<Cell>, queue: seq<Cell>, front: seq<Cell>)
    requires WellFormed(g) && visited <= GridCells(g) && FirstOf(s, g, front).Some?
    requires |front| <= |queue| && queue[..|front|] == front
    ensures Bfs(s, g, visited, queue) == FirstOf(s, g, front)
    decreases |front|
  {
    assert queue[0] == front[0];
    if !IsFree(s, g, front[0]) {
      var (v, q) := Enqueued(g, queue[0], visited, queue[1..], |MOTION|);
      EnqueuedKeeps(g, queue[0], visited, queue[1..], |MOTION|);
      assert q[..|front| - 1] == queue[1..][..|front| - 1] == front[1..];
      FrontFirst(s, g, v, q, front[1..]);
    }
  }

  /** The first n moves from a cell. */
  ghost function Ring(c: Cell, n: nat): seq<Cell>
    requires n <= |MOTION|
  {
    seq(n, j requires 0 <= j < n => Move(c, j))
  }

  lemma MoveIs(c: Cell, k: nat, dx: int, dy: int)
    requires k < |MOTION| && MOTION[k] == (dx, dy)
    ensures Move(c, k) == Cell(c.x + dx, c.y + dy)
  {
  }

  lemma EightMoves(c: Cell)
    ensures |MOTION| == 8
    ensures Ring(c, 8) == [Cell(c.x + 1, c.y), Cell(c.x, c.y + 1), Cell(c.x - 1, c.y), Cell(c.x, c.y - 1),
                           Cell(c.x + 1, c.y + 1), Cell(c.x + 1, c.y - 1), Cell(c.x - 1, c.y + 1), Cell(c.x - 1, c.y - 1)]
  {
    MoveIs(c, 0, 1, 0);
    MoveIs(c, 1, 0, 1);
    MoveIs(c, 2, -1, 0);
    MoveIs(c, 3, 0, -1);
    MoveIs(c, 4, 1, 1);
    MoveIs(c, 5, 1, -1);
    MoveIs(c, 6, -1, 1);
    MoveIs(c, 7, -1, -1);
  }

  /** The cell and its first n moves. */
  ghost function Tried(c: Cell, n: nat): set<Cell>
    requires n <= |MOTION|
  {
    if n == 0 then {c} else Tried(c, n - 1) + {Move(c, n - 1)}
  }

  lemma {:induction false} LaterIsUntried(c: Cell, n: nat, k: nat)
    requires n <= k < |MOTION|
    ensures Move(c, k) !in Tried(c, n)
  {
    if n > 0 {
      LaterIsUntried(c, n - 1, k);
      assert MOTION[k] != MOTION[n - 1];
    }
  }

  lemma {:induction false} RingIsQueued(s: Settings, g: Grid, c: Cell, n: nat)
    requires WellFormed(g) && n <= |MOTION|
    ensures FirstOf(s, g, Enqueued(g, c, {c}, [], n).1) == FirstOf(s, g, Ring(c, n))
    ensures Enqueued(g, c, {c}, [], n).0 <= Tried(c, n)
  {
    if n > 0 {
      RingIsQueued(s, g, c, n - 1);
      LaterIsUntried(c, n - 1, n - 1);
      var m, q := Move(c, n - 1), Enqueued(g, c, {c}, [], n - 1).1;
      FirstOfConcat(s, g, q, [m]);
      FirstOfConcat(s, g, Ring(c, n - 1), [m]);
      assert Ring(c, n) == Ring(c, n - 1) + [m];
    }
  }

  /** Around a blocked cell the four straight neighbours come first, from the one ahead in x, then the
      four diagonal ones: the first of them that is free is the answer. */
  lemma StraightFirst(s: Settings, g: Grid, c: Cell, ring: seq<Cell>)
    requires WellFormed(g) && InGrid(g, c) && !IsFree(s, g, c)
    requires ring == [Cell(c.x + 1, c.y), Cell(c.x, c.y + 1), Cell(c.x - 1, c.y), Cell(c.x, c.y - 1),
                      Cell(c.x + 1, c.y + 1), Cell(c.x + 1, c.y - 1), Cell(c.x - 1, c.y + 1), Cell(c.x - 1, c.y - 1)]
    requires FirstOf(s, g, ring).Some?
    ensures FirstFree(s, g, c) == FirstOf(s, g, ring)
  {
    EightMoves(c);
    var (v, q) := Enqueued(g, c, {c}, [], |MOTION|);
    RingIsQueued(s, g, c, |MOTION|);
    assert [c][1..] == [];
    assert q[..|q|] == q;
    FrontFirst(s, g, v, q, q);
  }

  lemma {:induction false} EnqueuedKeeps(g: Grid, head: Cell, visited: set<Cell>, queue: seq<Cell>, n: nat)
    requires n <= |MOTION|
    ensures var (v, q) := Enqueued(g, head, visited, queue, n);
            && |q| >= |queue| && q[..|queue|] == queue
            && (forall i :: |queue| <= i < |q| ==> q[i] in v - visited)
            && (forall c :: c in v - visited ==> Neighbours(head, c) && InGrid(g, c) && c in q)
  {
    if n > 0 { EnqueuedKeeps(g, head, visited, queue, n - 1); }
  }

  lemma {:induction false} EnqueuedCovers(g: Grid, head: Cell, visited: set<Cell>, queue: seq<Cell>, n: nat, k: nat)
    requires k < n <= |MOTION| && InGrid(g, Move(head, k))
    ensures Move(head, k) in Enqueued(g, head, visited, queue, n).0
  {
    if k < n - 1 { EnqueuedCovers(g, head, visited, queue, n - 1, k); }
  }

  method EnqueueNeighbours(g: Grid, head: Cell, visited: set<Cell>, queue: seq<Cell>)
    returns (visited': set<Cell>, queue': seq<Cell>)
    ensures (visited', queue') == Enqueued(g, head, visited, queue, |MOTION|)
    ensures visited <= visited'
    ensures forall n :: Neighbours(head, n) && InGrid(g, n) ==> n in visited'
    ensures forall n :: n in visited' - visited ==> Neighbours(head, n) && InGrid(g, n) && n in queue'
    ensures |queue'| >= |queue| && queue'[..|queue|] == queue
    ensures forall i :: |queue| <= i < |queue'| ==> queue'[i] in visited' - visited
  {
    visited', queue' := visited, queue;
    for k := 0 to |MOTION|
      invariant (visited', queue') == Enqueued(g, head, visited, queue, k)
    {
      var n := Move(head, k);
      if n !in visited' && InGrid(g, n) {
        visited' := visited' + {n};
        queue' := queue' + [n];
      }
    }
    EnqueuedKeeps(g, head, visited, queue, |MOTION|);
    forall n | Neighbours(head, n) && InGrid(g, n) ensures n in visited' {
      var k := NeighbourIsMove(head, n);
      EnqueuedCovers(g, head, visited, queue, |MOTION|, k);
    }
  }

  lemma NextLayer(s: Settings, g: Grid, start: Cell, visited: set<Cell>, done: set<Cell>, queue: seq<Cell>,
                  visited': set<Cell>, queue': seq<Cell>)
    requires WellFormed(g) && InGrid(g, start) && Layered(s, g, start, visited, done, queue)
    requires |queue| > 0 && !IsFree(s, g, queue[0])
    requires visited <= visited' && |queue'| >= |queue| - 1 && queue'[..|queue| - 1] == queue[1..]
    requires forall n :: Neighbours(queue[0], n) && InGrid(g, n) ==> n in visited'
    requires forall n :: n in visited' - visited ==> Neighbours(queue[0], n) && InGrid(g, n) && n in queue'
    requires forall i :: |queue| - 1 <= i < |queue'| ==> queue'[i] in visited' - visited
    ensures Layered(s, g, start, visited', done + {queue[0]}, queue')
  {
    var head, d := queue[0], Cheb(start, queue[0]);
    forall i | 0 <= i < |queue'|
      ensures d <= Cheb(start, queue'[i]) <= d + 1 && (i >= |queue| - 1 ==> Cheb(start, queue'[i]) == d + 1)
    {
      if i < |queue| - 1 {
        assert queue'[i] == queue[i + 1];
      } else {
        UnvisitedIsFarther(s, g, start, visited, done, queue, queue'[i]);
      }
    }
    forall i, j | 0 <= i < j < |queue'| ensures Cheb(start, queue'[i]) <= Cheb(start, queue'[j]) {
      if j < |queue| - 1 { assert queue'[i] == queue[i + 1] && queue'[j] == queue[j + 1]; }
    }
    forall c | c in visited' ensures c in done + {head} || c in queue' {
      if c in visited && c !in done && c != head {
        var i :| 0 <= i < |queue| && queue[i] == c;
        assert queue'[i - 1] == c;
      }
    }
    forall i | 0 <= i < |queue'| ensures queue'[i] in visited' {
      if i < |queue| - 1 { assert queue'[i] == queue[i + 1]; }
    }
  }

  /** The first free cell in breadth-first order. It is one of least Chebyshev distance, and None exactly when no cell is free. */
  method NearestFree(s: Settings, g: Grid, start: Cell) returns (found: Option<Cell>)
    requires WellFormed(g) && InGrid(g, start)
    ensures found == FirstFree(s, g, start)
    ensures found.Some? ==> IsFree(s, g, found.value)
    ensures found.Some? ==> forall c :: IsFree(s, g, c) ==> Cheb(start, found.value) <= Cheb(start, c)
    ensures found.None? <==> forall c :: !IsFree(s, g, c)
  {
    var visited, queue := {start}, [start];
    ghost var done := {};
    while |queue| > 0
      invariant Layered(s, g, start, visited, done, queue)
      invariant visited <= GridCells(g) && Bfs(s, g, visited, queue) == FirstFree(s, g, start)
      decreases GridCells(g) - visited, |queue|
    {
      var head := queue[0];
      if IsFree(s, g, head) {
        forall c | IsFree(s, g, c) ensures Cheb(start, head) <= Cheb(start, c) {
          if c !in visited { UnvisitedIsFarther(s, g, start, visited, done, queue, c); }
        }
        return Some(head);
      }
      var visited', queue' := EnqueueNeighbours(g, head, visited, queue[1..]);
      NextLayer(s, g, start, visited, done, queue, visited', queue');
      assert |queue'| >= |queue| ==> queue'[|queue| - 1] in visited' - visited;
      done := done + {head};
      visited, queue := visited', queue';
    }
    forall c ensures !IsFree(s, g, c) {
      if IsFree(s, g, c) && c !in visited { UnvisitedIsFarther(s, g, start, visited, done, queue, c); }
    }
    found := None;
  }
}
