/** Clustering obstacle points: union-find with path halving over 8-connected occupied cells. */
module Clusters {
  import opened Grids
  import opened Reals

  /** Two occupied cells are linked when one is a king's move from the other. */
  ghost predicate Linked(cells: set<Cell>, a: Cell, b: Cell) {
    a in cells && b in cells && Neighbours(a, b)
  }

  ghost predicate LinkAt(cells: set<Cell>, p: seq<Cell>, i: nat)
    requires i + 1 < |p|
  {
    Linked(cells, p[i], p[i + 1])
  }

  ghost predicate Chain(cells: set<Cell>, p: seq<Cell>) {
    |p| > 0 && p[0] in cells && forall i :: 0 <= i < |p| - 1 ==> LinkAt(cells, p, i)
  }

  /** Joined by a chain of adjacent occupied cells. */
  ghost predicate Connected(cells: set<Cell>, a: Cell, b: Cell) {
    exists p :: Chain(cells, p) && p[0] == a && p[|p| - 1] == b
  }

  lemma ConnectedSelf(cells: set<Cell>, a: Cell)
    requires a in cells
    ensures Connected(cells, a, a)
  {
    assert Chain(cells, [a]);
  }

  lemma ConnectedLink(cells: set<Cell>, a: Cell, b: Cell)
    requires Linked(cells, a, b)
    ensures Connected(cells, a, b)
  {
    assert Chain(cells, [a, b]);
  }

  lemma ConnectedTransitive(cells: set<Cell>, a: Cell, b: Cell, c: Cell)
    requires Connected(cells, a, b) && Connected(cells, b, c)
    ensures Connected(cells, a, c)
  {
    var p :| Chain(cells, p) && p[0] == a && p[|p| - 1] == b;
    var q :| Chain(cells, q) && q[0] == b && q[|q| - 1] == c;
    var r := p + q[1..];
    forall i | 0 <= i < |r| - 1 ensures LinkAt(cells, r, i) {
      if i < |p| - 1 {
        assert LinkAt(cells, p, i);
      } else {
        assert LinkAt(cells, q, i - |p| + 1);
      }
    }
    assert Chain(cells, r);
  }

  lemma ConnectedSymmetric(cells: set<Cell>, a: Cell, b: Cell)
    requires Connected(cells, a, b)
    ensures Connected(cells, b, a)
  {
    var p :| Chain(cells, p) && p[0] == a && p[|p| - 1] == b;
    if |p| > 1 { assert LinkAt(cells, p, |p| - 2); }
    var r := seq(|p|, i requires 0 <= i < |p| => p[|p| - 1 - i]);
    forall i | 0 <= i < |r| - 1 ensures LinkAt(cells, r, i) {
      assert LinkAt(cells, p, |p| - 2 - i);
    }
    assert Chain(cells, r);
  }

  /** What the forest promises about one element: its parent is in the same class and closer to
      the root, and its representative is a root. */
  ghost predicate TreeAt(parent: map<Cell, Cell>, rep: map<Cell, Cell>, rank: map<Cell, nat>, a: Cell)
    requires rep.Keys == parent.Keys == rank.Keys && a in parent
  {
    && parent[a] in parent && rep[parent[a]] == rep[a]
    && (parent[a] != a ==> rank[parent[a]] < rank[a])
    && (parent[a] == a ==> rep[a] == a)
    && rep[a] in parent && parent[rep[a]] == rep[a]
  }

  ghost predicate Trees(parent: map<Cell, Cell>, rep: map<Cell, Cell>, rank: map<Cell, nat>) {
    && rep.Keys == parent.Keys == rank.Keys
    && forall a {:trigger TreeAt(parent, rep, rank, a)} :: a in parent ==> TreeAt(parent, rep, rank, a)
  }

  /** Skipping a parent keeps every element in its tree. */
  lemma HalvePath(parent: map<Cell, Cell>, rep: map<Cell, Cell>, rank: map<Cell, nat>, r: Cell)
    requires Trees(parent, rep, rank) && r in parent && parent[r] != r
    ensures parent[r] in parent
    ensures Trees(parent[r := parent[parent[r]]], rep, rank)
    ensures parent[parent[r]] in parent && rep[parent[parent[r]]] == rep[r] && rank[parent[parent[r]]] < rank[r]
  {
    assert TreeAt(parent, rep, rank, r);
    assert TreeAt(parent, rep, rank, parent[r]);
    assert TreeAt(parent, rep, rank, rep[r]);
    var parent' := parent[r := parent[parent[r]]];
    forall a | a in parent' ensures TreeAt(parent', rep, rank, a) {
      assert TreeAt(parent, rep, rank, a);
    }
  }

  /** Hanging one root under another merges exactly their classes. */
  lemma JoinRoots(parent: map<Cell, Cell>, rep: map<Cell, Cell>, rank: map<Cell, nat>, ra: Cell, rb: Cell,
                  rep': map<Cell, Cell>, rank': map<Cell, nat>)
    requires Trees(parent, rep, rank) && ra in parent && rb in parent && ra != rb
    requires rep[ra] == ra && rep[rb] == rb
    requires rep'.Keys == parent.Keys == rank'.Keys
    requires forall x :: x in parent ==> rep'[x] == if rep[x] == ra then rb else rep[x]
    requires forall x :: x in parent ==> rank'[x] == if rep[x] == ra then rank[x] + rank[rb] + 1 else rank[x]
    ensures Trees(parent[ra := rb], rep', rank')
  {
    assert TreeAt(parent, rep, rank, ra) && TreeAt(parent, rep, rank, rb);
    forall a | a in parent ensures TreeAt(parent[ra := rb], rep', rank', a) {
      assert TreeAt(parent, rep, rank, a);
    }
  }

  /** A disjoint-set forest. rep and rank are the proof's view of it: each element's
      representative, and a number that falls along every parent link. */
  class Forest {
    var parent: map<Cell, Cell>
    ghost var rep: map<Cell, Cell>
    ghost var rank: map<Cell, nat>

    ghost predicate Valid()
      reads this
    {
      Trees(parent, rep, rank)
    }

    /** Every cell starts as its own parent. */
    constructor (cells: set<Cell>)
      ensures Valid() && parent.Keys == cells
      ensures forall a :: a in cells ==> rep[a] == a
    {
      parent := map a | a in cells :: a;
      rep := map a | a in cells :: a;
      rank := map a | a in cells :: 0;
    }

    /** The root of a. Halving the path on the way moves no element to another root. */
    method Find(a: Cell) returns (r: Cell)
      requires Valid() && a in parent
      modifies this`parent
      ensures Valid() && parent.Keys == old(parent.Keys)
      ensures r == rep[a] && r in parent && rep[r] == r
    {
      r := a;
      while parent[r] != r
        invariant Valid() && parent.Keys == old(parent.Keys) && r in parent && rep[r] == rep[a]
        decreases rank[r]
      {
        HalvePath(parent, rep, rank, r);
        parent := parent[r := parent[parent[r]]];
        r := parent[r];
      }
      assert TreeAt(parent, rep, rank, r);
    }

    /** Merges the classes of a and b under the root of b; all other classes stay. */
    method Union(a: Cell, b: Cell)
      requires Valid() && a in parent && b in parent
      modifies this
      ensures Valid() && parent.Keys == old(parent.Keys)
      ensures Merged(old(rep), rep, a, b)
    {
      var ra := Find(a);
      var rb := Find(b);
      if ra != rb {
        ghost var rep' := map x | x in rep :: if rep[x] == ra then rb else rep[x];
        ghost var rank' := map x | x in rep :: if rep[x] == ra then rank[x] + rank[rb] + 1 else rank[x];
        JoinRoots(parent, rep, rank, ra, rb, rep', rank');
        parent := parent[ra := rb];
        rep, rank := rep', rank';
      }
    }
  }

  /** now differs from was only in that the class of a took over the representative of b. */
  ghost predicate Merged(was: map<Cell, Cell>, now: map<Cell, Cell>, a: Cell, b: Cell) {
    && now.Keys == was.Keys && a in was && b in was
    && forall x {:trigger now[x]} :: x in was ==> now[x] == if was[x] == was[a] then was[b] else was[x]
  }

  /** The grid cell of a point. */
  function CellOfPoint(p: (real, real), cell: real): Cell
    requires cell > 0.0
  {
    Cell((p.0 / cell).Floor, (p.1 / cell).Floor)
  }

  function CellsOf(pts: seq<(real, real)>, cell: real): (cs: seq<Cell>)
    requires cell > 0.0
    ensures |cs| == |pts| && forall i :: 0 <= i < |cs| ==> cs[i] == CellOfPoint(pts[i], cell)
  {
    seq(|pts|, i requires 0 <= i < |pts| => CellOfPoint(pts[i], cell))
  }

  function AsSet(cs: seq<Cell>): set<Cell> {
    set c | c in cs
  }

  ghost predicate HomeAt(cells: set<Cell>, rep: map<Cell, Cell>, a: Cell)
    requires a in rep
  {
    rep[a] in cells && Connected(cells, a, rep[a])
  }

  /** Representatives never leave their component. */
  ghost predicate Sound(cells: set<Cell>, rep: map<Cell, Cell>) {
    rep.Keys == cells && forall a {:trigger HomeAt(cells, rep, a)} :: a in cells ==> HomeAt(cells, rep, a)
  }

  /** a shares its representative with each of its neighbours. */
  ghost predicate Settled(cells: set<Cell>, rep: map<Cell, Cell>, a: Cell)
    requires rep.Keys == cells
  {
    forall b :: Linked(cells, a, b) ==> rep[a] == rep[b]
  }

  lemma {:induction false} ChainSharesRep(cells: set<Cell>, rep: map<Cell, Cell>, p: seq<Cell>, i: nat)
    requires Chain(cells, p) && rep.Keys == cells && i < |p|
    requires forall a :: a in cells ==> Settled(cells, rep, a)
    ensures p[i] in cells && rep[p[i]] == rep[p[0]]
  {
    if i > 0 {
      ChainSharesRep(cells, rep, p, i - 1);
      assert LinkAt(cells, p, i - 1);
      assert Settled(cells, rep, p[i - 1]);
    }
  }

  /** Once all links are merged, sharing a representative is exactly being connected. */
  lemma RepIsConnected(cells: set<Cell>, rep: map<Cell, Cell>, a: Cell, b: Cell)
    requires Sound(cells, rep) && a in cells && b in cells
    requires forall x :: x in cells ==> Settled(cells, rep, x)
    ensures rep[a] == rep[b] <==> Connected(cells, a, b)
  {
    if rep[a] == rep[b] {
      assert HomeAt(cells, rep, a) && HomeAt(cells, rep, b);
      ConnectedSymmetric(cells, b, rep[b]);
      ConnectedTransitive(cells, a, rep[a], b);
    }
    if Connected(cells, a, b) {
      var p :| Chain(cells, p) && p[0] == a && p[|p| - 1] == b;
      ChainSharesRep(cells, rep, p, |p| - 1);
    }
  }

  /** Merging two linked cells keeps representatives inside components. */
  lemma UnionSound(cells: set<Cell>, rep: map<Cell, Cell>, rep': map<Cell, Cell>, a: Cell, b: Cell)
    requires Sound(cells, rep) && Linked(cells, a, b) && Merged(rep, rep', a, b)
    ensures Sound(cells, rep')
  {
    assert HomeAt(cells, rep, a) && HomeAt(cells, rep, b);
    forall x | x in cells ensures HomeAt(cells, rep', x) {
      assert HomeAt(cells, rep, x);
      if rep[x] == rep[a] {
        ConnectedSymmetric(cells, a, rep[a]);
        ConnectedTransitive(cells, x, rep[x], a);
        ConnectedLink(cells, a, b);
        ConnectedTransitive(cells, x, a, b);
        ConnectedTransitive(cells, x, b, rep[b]);
      }
    }
  }

  /** Elements that shared a representative still do. */
  ghost predicate Coarser(was: map<Cell, Cell>, now: map<Cell, Cell>) {
    now.Keys == was.Keys && forall x, y :: x in was && y in was && was[x] == was[y] ==> now[x] == now[y]
  }

  lemma MergedCoarser(first: map<Cell, Cell>, was: map<Cell, Cell>, now: map<Cell, Cell>, a: Cell, b: Cell)
    requires Coarser(first, was) && Merged(was, now, a, b)
    ensures Coarser(first, now) && Coarser(was, now) && now[a] == now[b]
  {
  }

  /** Merges a cell with its neighbour at the given offset, if that is occupied. */
  method MergeOne(f: Forest, c: Cell, dx: int, dy: int, ghost cells: set<Cell>)
    requires f.Valid() && f.parent.Keys == cells && c in cells && Sound(cells, f.rep)
    requires -1 <= dx <= 1 && -1 <= dy <= 1
    modifies f
    ensures f.Valid() && f.parent.Keys == cells && Sound(cells, f.rep)
    ensures Coarser(old(f.rep), f.rep)
    ensures var b := Cell(c.x + dx, c.y + dy); Linked(cells, c, b) ==> f.rep[c] == f.rep[b]
  {
    if dx == 0 && dy == 0 { return; }
    var nb := Cell(c.x + dx, c.y + dy);
    if nb in f.parent {
      ghost var rep := f.rep;
      f.Union(c, nb);
      UnionSound(cells, rep, f.rep, c, nb);
      MergedCoarser(rep, rep, f.rep, c, nb);
    }
  }

  /** Merges one cell with each of its occupied neighbours. */
  method MergeNeighbours(f: Forest, c: Cell, ghost cells: set<Cell>)
    requires f.Valid() && f.parent.Keys == cells && c in cells && Sound(cells, f.rep)
    modifies f
    ensures f.Valid() && f.parent.Keys == cells && Sound(cells, f.rep)
    ensures Settled(cells, f.rep, c) && Coarser(old(f.rep), f.rep)
  {
    for dx := -1 to 2
      invariant f.Valid() && f.parent.Keys == cells && Sound(cells, f.rep) && Coarser(old(f.rep), f.rep)
      invariant SettledBefore(cells, f.rep, c, dx, -1)
    {
      for dy := -1 to 2
        invariant f.Valid() && f.parent.Keys == cells && Sound(cells, f.rep) && Coarser(old(f.rep), f.rep)
        invariant SettledBefore(cells, f.rep, c, dx, dy)
      {
        ghost var rep := f.rep;
        MergeOne(f, c, dx, dy, cells);
        SettledNext(cells, rep, f.rep, c, dx, dy);
      }
    }
  }

  /** c shares its representative with the neighbours at offsets before (dx, dy). */
  ghost predicate SettledBefore(cells: set<Cell>, rep: map<Cell, Cell>, c: Cell, dx: int, dy: int)
    requires rep.Keys == cells
  {
    forall b :: Linked(cells, c, b) && (b.x < c.x + dx || (b.x == c.x + dx && b.y < c.y + dy)) ==> rep[c] == rep[b]
  }

  lemma SettledNext(cells: set<Cell>, was: map<Cell, Cell>, now: map<Cell, Cell>, c: Cell, dx: int, dy: int)
    requires was.Keys == cells && Coarser(was, now) && SettledBefore(cells, was, c, dx, dy)
    requires var b := Cell(c.x + dx, c.y + dy); Linked(cells, c, b) ==> now[c] == now[b]
    ensures SettledBefore(cells, now, c, dx, dy + 1)
  {
    forall b | Linked(cells, c, b) && (b.x < c.x + dx || (b.x == c.x + dx && b.y < c.y + dy + 1)) ensures now[c] == now[b] {
      if b != Cell(c.x + dx, c.y + dy) { assert was[c] == was[b]; }
    }
  }

  lemma SettledStays(cells: set<Cell>, was: map<Cell, Cell>, now: map<Cell, Cell>, a: Cell)
    requires was.Keys == cells && Coarser(was, now) && Settled(cells, was, a)
    ensures Settled(cells, now, a)
  {
  }

  /** The distinct cells in order of first appearance. */
  method DistinctCells(cs: seq<Cell>) returns (order: seq<Cell>)
    ensures forall c :: c in order <==> c in cs
    ensures forall i, j :: 0 <= i < j < |order| ==> order[i] != order[j]
  {
    order := [];
    for i := 0 to |cs|
      invariant forall c :: c in order <==> c in cs[..i]
      invariant forall j, k :: 0 <= j < k < |order| ==> order[j] != order[k]
    {
      assert cs[..i + 1] == cs[..i] + [cs[i]];
      if cs[i] !in order { order := order + [cs[i]]; }
    }
    assert cs[..|cs|] == cs;
  }

  /** Merges all adjacent occupied cells. */
  method BuildForest(order: seq<Cell>, cells: set<Cell>) returns (f: Forest)
    requires forall c :: c in order <==> c in cells
    ensures fresh(f) && f.Valid() && f.parent.Keys == cells
    ensures Sound(cells, f.rep) && forall a :: a in cells ==> Settled(cells, f.rep, a)
  {
    f := new Forest(cells);
    SingletonsSound(cells, f.rep);
    for k := 0 to |order|
      invariant f.Valid() && f.parent.Keys == cells && Sound(cells, f.rep)
      invariant SettledPrefix(cells, f.rep, order, k)
    {
      ghost var rep := f.rep;
      MergeNeighbours(f, order[k], cells);
      SettledPrefixGrows(cells, rep, f.rep, order, k);
    }
    forall a | a in cells ensures Settled(cells, f.rep, a) {
      assert a in order;
    }
  }

  lemma SingletonsSound(cells: set<Cell>, rep: map<Cell, Cell>)
    requires rep.Keys == cells && forall a :: a in cells ==> rep[a] == a
    ensures Sound(cells, rep)
  {
    forall a | a in cells ensures HomeAt(cells, rep, a) { ConnectedSelf(cells, a); }
  }

  ghost predicate SettledPrefix(cells: set<Cell>, rep: map<Cell, Cell>, order: seq<Cell>, k: nat)
    requires rep.Keys == cells
  {
    forall i :: 0 <= i < k && i < |order| ==> Settled(cells, rep, order[i])
  }

  lemma SettledPrefixGrows(cells: set<Cell>, was: map<Cell, Cell>, now: map<Cell, Cell>, order: seq<Cell>, k: nat)
    requires was.Keys == cells && Coarser(was, now) && k < |order|
    requires SettledPrefix(cells, was, order, k) && Settled(cells, now, order[k])
    ensures SettledPrefix(cells, now, order, k + 1)
  {
    forall i | 0 <= i < k ensures Settled(cells, now, order[i]) {
      SettledStays(cells, was, now, order[i]);
    }
  }

  // ---- What it means for the points ----

  /** The point lies in the box of the cell, its lower sides included. */
  predicate InBox(p: (real, real), cell: real, c: Cell) {
    InStep(p.0, cell, c.x) && InStep(p.1, cell, c.y)
  }

  lemma CellIsBox(p: (real, real), cell: real, c: Cell)
    requires cell > 0.0
    ensures CellOfPoint(p, cell) == c <==> InBox(p, cell, c)
  {
    FloorOfQuotient(p.0, cell, c.x);
    FloorOfQuotient(p.1, cell, c.y);
  }

  /** The points lie in one box or in two boxes that share a side or a corner. */
  ghost predicate Touching(p: (real, real), q: (real, real), cell: real) {
    exists a, b :: InBox(p, cell, a) && InBox(q, cell, b) && -1 <= b.x - a.x <= 1 && -1 <= b.y - a.y <= 1
  }

  ghost predicate TouchAt(pts: seq<(real, real)>, cell: real, s: seq<int>, k: int)
    requires 0 <= k < |s| - 1
  {
    0 <= s[k] < |pts| && 0 <= s[k + 1] < |pts| && Touching(pts[s[k]], pts[s[k + 1]], cell)
  }

  /** Points of the cloud, each touching the next. */
  ghost predicate Trail(pts: seq<(real, real)>, cell: real, s: seq<int>, i: int, j: int) {
    |s| > 0 && s[0] == i && s[|s| - 1] == j && forall k :: 0 <= k < |s| - 1 ==> TouchAt(pts, cell, s, k)
  }

  lemma TouchingCells(p: (real, real), q: (real, real), cell: real)
    requires cell > 0.0
    ensures var a, b := CellOfPoint(p, cell), CellOfPoint(q, cell);
            Touching(p, q, cell) <==> a == b || Neighbours(a, b)
  {
    var a, b := CellOfPoint(p, cell), CellOfPoint(q, cell);
    CellIsBox(p, cell, a);
    CellIsBox(q, cell, b);
    if Touching(p, q, cell) {
      var d, e :| InBox(p, cell, d) && InBox(q, cell, e) && -1 <= e.x - d.x <= 1 && -1 <= e.y - d.y <= 1;
      CellIsBox(p, cell, d);
      CellIsBox(q, cell, e);
    }
  }

  lemma {:induction false} TrailConnects(pts: seq<(real, real)>, cell: real, s: seq<int>, i: int, j: int)
    requires cell > 0.0 && 0 <= i < |pts| && 0 <= j < |pts| && Trail(pts, cell, s, i, j)
    ensures var cs := CellsOf(pts, cell); Connected(AsSet(cs), cs[i], cs[j])
  {
    var cs := CellsOf(pts, cell);
    if |s| == 1 {
      ConnectedSelf(AsSet(cs), cs[i]);
    } else {
      assert TouchAt(pts, cell, s, |s| - 2);
      var front, k := s[..|s| - 1], s[|s| - 2];
      forall l | 0 <= l < |front| - 1 ensures TouchAt(pts, cell, front, l) { assert TouchAt(pts, cell, s, l); }
      TrailConnects(pts, cell, front, i, k);
      TouchingCells(pts[k], pts[j], cell);
      if cs[k] != cs[j] {
        ConnectedLink(AsSet(cs), cs[k], cs[j]);
        ConnectedTransitive(AsSet(cs), cs[i], cs[k], cs[j]);
      }
    }
  }

  lemma {:induction false} ChainIsTrail(pts: seq<(real, real)>, cell: real, p: seq<Cell>, i: int, j: int) returns (s: seq<int>)
    requires cell > 0.0 && 0 <= i < |pts| && 0 <= j < |pts| && Chain(AsSet(CellsOf(pts, cell)), p)
    requires p[0] == CellsOf(pts, cell)[i] && p[|p| - 1] == CellsOf(pts, cell)[j]
    ensures Trail(pts, cell, s, i, j)
    decreases |p|
  {
    var cs := CellsOf(pts, cell);
    TouchingCells(pts[i], pts[j], cell);
    if |p| == 1 {
      s := [i, j];
      assert TouchAt(pts, cell, s, 0);
    } else {
      var front := p[..|p| - 1];
      assert LinkAt(AsSet(cs), p, |p| - 2);
      var k :| 0 <= k < |cs| && cs[k] == p[|p| - 2];
      forall l | 0 <= l < |front| - 1 ensures LinkAt(AsSet(cs), front, l) { assert LinkAt(AsSet(cs), p, l); }
      var t := ChainIsTrail(pts, cell, front, i, k);
      TouchingCells(pts[k], pts[j], cell);
      s := t + [j];
      forall l | 0 <= l < |s| - 1 ensures TouchAt(pts, cell, s, l) {
        if l < |t| - 1 { assert TouchAt(pts, cell, t, l); }
      }
    }
  }

  /** Being connected through occupied cells is being joined by a trail of touching points. */
  lemma ConnectedIsTrail(pts: seq<(real, real)>, cell: real, i: int, j: int)
    requires cell > 0.0 && 0 <= i < |pts| && 0 <= j < |pts|
    ensures var cs := CellsOf(pts, cell);
            Connected(AsSet(cs), cs[i], cs[j]) <==> exists s :: Trail(pts, cell, s, i, j)
  {
    var cs := CellsOf(pts, cell);
    if Connected(AsSet(cs), cs[i], cs[j]) {
      var p :| Chain(AsSet(cs), p) && p[0] == cs[i] && p[|p| - 1] == cs[j];
      var s := ChainIsTrail(pts, cell, p, i, j);
    }
    if exists s :: Trail(pts, cell, s, i, j) {
      var s :| Trail(pts, cell, s, i, j);
      TrailConnects(pts, cell, s, i, j);
    }
  }

  ghost predicate Used(labels: seq<nat>, k: nat) {
    exists i :: 0 <= i < |labels| && labels[i] == k
  }

  /** Labels of all points: two points share a label exactly when a trail of points joins them, each in
      the same or an adjacent box as the next, and the labels are exactly 0..n-1. */
  method ClusterPoints(pts: seq<(real, real)>, cell: real) returns (labels: seq<nat>, n: nat)
    requires cell > 0.0
    ensures |labels| == |pts|
    ensures forall i, j :: 0 <= i < |pts| && 0 <= j < |pts| ==>
                             (labels[i] == labels[j] <==> exists s :: Trail(pts, cell, s, i, j))
    ensures forall k: nat :: k < n <==> Used(labels, k)
  {
    if |pts| == 0 { return [], 0; }
    var cs := CellsOf(pts, cell);
    var order := DistinctCells(cs);
    var f := BuildForest(order, AsSet(cs));
    labels, n := LabelPoints(f, cs);
    forall i, j | 0 <= i < |pts| && 0 <= j < |pts|
      ensures labels[i] == labels[j] <==> exists s :: Trail(pts, cell, s, i, j)
    {
      RepIsConnected(AsSet(cs), f.rep, cs[i], cs[j]);
      ConnectedIsTrail(pts, cell, i, j);
    }
  }

  /** Numbers handed out so far: one per representative met, without gaps. */
  ghost predicate Numbering(rep: map<Cell, Cell>, cs: seq<Cell>, i: nat, numbers: map<Cell, nat>, labels: seq<nat>) {
    && i <= |cs| && |labels| == i
    && (forall j :: 0 <= j < i ==> cs[j] in rep && rep[cs[j]] in numbers && labels[j] == numbers[rep[cs[j]]])
    && (forall r, q :: r in numbers && q in numbers && numbers[r] == numbers[q] ==> r == q)
    && (forall k: nat :: k < |numbers| <==> Used(labels, k))
    && (forall r :: r in numbers ==> numbers[r] < |numbers|)
  }

  lemma NumberingGrows(rep: map<Cell, Cell>, cs: seq<Cell>, i: nat, numbers: map<Cell, nat>, labels: seq<nat>)
    requires Numbering(rep, cs, i, numbers, labels) && i < |cs| && cs[i] in rep
    ensures var root := rep[cs[i]];
            var numbers' := if root in numbers then numbers else numbers[root := |numbers|];
            Numbering(rep, cs, i + 1, numbers', labels + [numbers'[root]])
  {
    var root := rep[cs[i]];
    var numbers' := if root in numbers then numbers else numbers[root := |numbers|];
    var number := numbers'[root];
    var labels' := labels + [number];
    forall k: nat ensures k < |numbers'| <==> Used(labels', k) {
      if Used(labels, k) {
        var j :| 0 <= j < |labels| && labels[j] == k;
        assert labels'[j] == k;
      }
      if k == number { assert labels'[|labels|] == k; }
      if Used(labels', k) && k != number {
        var j :| 0 <= j < |labels'| && labels'[j] == k;
        assert labels[j] == k;
      }
    }
  }

  /** Numbers the representatives in order of first appearance. */
  method LabelPoints(f: Forest, cs: seq<Cell>) returns (labels: seq<nat>, n: nat)
    requires f.Valid() && forall i :: 0 <= i < |cs| ==> cs[i] in f.parent
    modifies f`parent
    ensures f.Valid() && |labels| == |cs|
    ensures forall i, j :: 0 <= i < |cs| && 0 <= j < |cs| ==> (labels[i] == labels[j] <==> f.rep[cs[i]] == f.rep[cs[j]])
    ensures forall k: nat :: k < n <==> Used(labels, k)
  {
    var rootToLabel: map<Cell, nat> := map[];
    labels := [];
    for i := 0 to |cs|
      invariant f.Valid() && f.parent.Keys == old(f.parent.Keys)
      invariant Numbering(f.rep, cs, i, rootToLabel, labels)
    {
      var root := f.Find(cs[i]);
      NumberingGrows(f.rep, cs, i, rootToLabel, labels);
      if root !in rootToLabel {
        rootToLabel := rootToLabel[root := |rootToLabel|];
      }
      labels := labels + [rootToLabel[root]];
    }
    n := |rootToLabel|;
  }
}
