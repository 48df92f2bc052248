/** Removal of the ground from a point cloud: per-cell minima, pooled over the 3x3 neighbourhood by
    shifting the grid, give the local ground under every point. */
module GroundSegmentation {
  import opened Wrappers
  import opened Heights
  import opened Reals

  type Cell = (int, int)

  datatype Point = Point(x: real, y: real, z: real)

  datatype Params = Params(cell: real, minPts: int, groundBand: real, legOffset: real, maxHeight: real, minTotal: int)

  /** Height of a point along the up direction. */
  function HeightOf(p: Point, up: Point): real { p.x * up.x + p.y * up.y + p.z * up.z }

  function CellOf(p: Point, cell: real): Cell
    requires cell != 0.0
  {
    ((p.x / cell).Floor, (p.y / cell).Floor)
  }

  // ---- The definition, point by point ----

  /** How many of the first n points lie in cell c. */
  function Count(cells: seq<Cell>, n: nat, c: Cell): nat
    requires n <= |cells|
  {
    if n == 0 then 0 else Count(cells, n - 1, c) + if cells[n - 1] == c then 1 else 0
  }

  predicate Touches(a: Cell, b: Cell) { -1 <= a.0 - b.0 <= 1 && -1 <= a.1 - b.1 <= 1 }

  /** Point q may define the ground at cell c: it is in the neighbourhood and not in a sparse cell. */
  predicate Supports(cells: seq<Cell>, minPts: int, q: int, c: Cell)
    requires 0 <= q < |cells|
  {
    Touches(cells[q], c) && Count(cells, |cells|, cells[q]) >= minPts
  }

  /** The lowest of the supporting points among the first n. */
  function Ground(cells: seq<Cell>, h: seq<real>, minPts: int, n: nat, c: Cell): Height
    requires n <= |cells| == |h|
  {
    if n == 0 then Inf
    else if Supports(cells, minPts, n - 1, c) then MinH(Ground(cells, h, minPts, n - 1, c), Fin(h[n - 1]))
    else Ground(cells, h, minPts, n - 1, c)
  }

  /** Rise above the local ground, or above the foot where there is none. */
  function Rise(ground: Height, h: real, foot: real): real { if ground.Fin? then h - ground.h else h - foot }

  predicate Keeps(p: Params, rise: real) { rise > p.groundBand && rise <= p.maxHeight }

  /** The points kept among the first n, in order. */
  function Kept(xyz: seq<Point>, cells: seq<Cell>, h: seq<real>, p: Params, foot: real, n: nat): seq<Point>
    requires n <= |xyz| == |cells| == |h|
  {
    if n == 0 then []
    else
      var rise := Rise(Ground(cells, h, p.minPts, |h|, cells[n - 1]), h[n - 1], foot);
      Kept(xyz, cells, h, p, foot, n - 1) + (if Keeps(p, rise) then [xyz[n - 1]] else [])
  }

  /** Below the sparse cutoff only points too far above the foot are dropped. */
  function NotTooHigh(xyz: seq<Point>, h: seq<real>, p: Params, foot: real, n: nat): seq<Point>
    requires n <= |xyz| == |h|
  {
    if n == 0 then []
    else NotTooHigh(xyz, h, p, foot, n - 1) + (if h[n - 1] - foot <= p.maxHeight then [xyz[n - 1]] else [])
  }

  /** v is the lowest supporting height at c. */
  ghost predicate IsGround(cells: seq<Cell>, h: seq<real>, minPts: int, n: nat, c: Cell, v: Height)
    requires n <= |cells| == |h|
  {
    && (forall q :: 0 <= q < n && Supports(cells, minPts, q, c) ==> Le(v, Fin(h[q])))
    && (v.Fin? ==> exists q :: 0 <= q < n && Supports(cells, minPts, q, c) && v == Fin(h[q]))
  }

  lemma {:induction false} GroundIsLowest(cells: seq<Cell>, h: seq<real>, minPts: int, n: nat, c: Cell)
    requires n <= |cells| == |h|
    ensures IsGround(cells, h, minPts, n, c, Ground(cells, h, minPts, n, c))
  {
    if n > 0 { GroundIsLowest(cells, h, minPts, n - 1, c); }
  }

  lemma GroundIsUnique(cells: seq<Cell>, h: seq<real>, minPts: int, n: nat, c: Cell, v: Height, u: Height)
    requires n <= |cells| == |h|
    requires IsGround(cells, h, minPts, n, c, v) && IsGround(cells, h, minPts, n, c, u)
    ensures v == u
  {
    if v.Fin? {
      var q :| 0 <= q < n && Supports(cells, minPts, q, c) && v == Fin(h[q]);
      assert Le(u, v);
    }
    if u.Fin? {
      var q :| 0 <= q < n && Supports(cells, minPts, q, c) && u == Fin(h[q]);
      assert Le(v, u);
    }
  }

  // ---- Shift-and-min pooling ----

  /** The contents of a grid. */
  type Grid = seq<seq<Height>>

  ghost predicate Shows(m: array2<Height>, g: Grid)
    reads m
  {
    && |g| == m.Length0
    && (forall i :: 0 <= i < |g| ==> |g[i]| == m.Length1)
    && (forall i, j :: 0 <= i < m.Length0 && 0 <= j < m.Length1 ==> m[i, j] == g[i][j])
  }

  /** A grid entry, infinitely high outside the grid. */
  ghost function At(g: Grid, i: int, j: int): Height {
    if 0 <= i < |g| && 0 <= j < |g[i]| then g[i][j] else Inf
  }

  /** The offsets handled before step k of the double loop: the copy first, then the loop order
      with the centre skipped. */
  ghost function Offsets(k: nat): seq<(int, int)> {
    if k == 0 then [(0, 0)]
    else if k - 1 == 4 then Offsets(k - 1)
    else Offsets(k - 1) + [((k - 1) / 3 - 1, (k - 1) % 3 - 1)]
  }

  /** The lowest entry around (i, j) over a list of offsets. */
  ghost function PoolOver(g: Grid, i: int, j: int, offs: seq<(int, int)>): Height {
    if offs == [] then Inf
    else
      var o := offs[|offs| - 1];
      MinH(PoolOver(g, i, j, offs[..|offs| - 1]), AtOffset(g, i, j, o))
  }

  lemma PoolMore(g: Grid, i: int, j: int, offs: seq<(int, int)>, o: (int, int))
    ensures PoolOver(g, i, j, offs + [o]) == MinH(PoolOver(g, i, j, offs), AtOffset(g, i, j, o))
  {
    assert (offs + [o])[..|offs|] == offs;
  }

  ghost predicate Pooled(g: Grid, pooled: array2<Height>, offs: seq<(int, int)>)
    reads pooled
  {
    && pooled.Length0 == |g|
    && (forall i :: 0 <= i < |g| ==> |g[i]| == pooled.Length1)
    && forall i, j :: 0 <= i < pooled.Length0 && 0 <= j < pooled.Length1 ==> pooled[i, j] == PoolOver(g, i, j, offs)
  }

  function Max(a: int, b: int): int { if a >= b then a else b }

  /** The slice assignment: the grid moved by one offset, infinite where nothing moves in. */
  method Shift(m: array2<Height>, di: int, dj: int, ghost g: Grid) returns (shifted: array2<Height>)
    requires -1 <= di <= 1 && -1 <= dj <= 1 && m.Length0 >= 1 && m.Length1 >= 1 && Shows(m, g)
    ensures fresh(shifted) && shifted.Length0 == m.Length0 && shifted.Length1 == m.Length1
    ensures forall i, j :: 0 <= i < m.Length0 && 0 <= j < m.Length1 ==> shifted[i, j] == AtOffset(g, i, j, (di, dj))
  {
    var w, h := m.Length0, m.Length1;
    shifted := new Height[w, h]((_, _) => Inf);
    var di0, di1 := Max(0, -di), w - Max(0, di);
    var si0, si1 := Max(0, di), w - Max(0, -di);
    var dj0, dj1 := Max(0, -dj), h - Max(0, dj);
    var sj0, sj1 := Max(0, dj), h - Max(0, -dj);
    assert si0 - di0 == di && sj0 - dj0 == dj && si1 - di1 == di && sj1 - dj1 == dj;
    forall i, j | di0 <= i < di1 && dj0 <= j < dj1 {
      shifted[i, j] := m[i - di0 + si0, j - dj0 + sj0];
    }
    forall i, j | 0 <= i < w && 0 <= j < h ensures shifted[i, j] == AtOffset(g, i, j, (di, dj)) {
      Looked(g, w, h, i, j, di, dj);
      assert di0 <= i < di1 && dj0 <= j < dj1 <==> 0 <= i + di < w && 0 <= j + dj < h;
    }
  }

  lemma Looked(g: Grid, w: nat, h: nat, i: int, j: int, di: int, dj: int)
    requires |g| == w && forall k :: 0 <= k < w ==> |g[k]| == h
    ensures AtOffset(g, i, j, (di, dj)) == if 0 <= i + di < w && 0 <= j + dj < h then g[i + di][j + dj] else Inf
  {
  }

  lemma OffsetsStep(k: nat, di: int, dj: int)
    requires -1 <= di <= 1 && -1 <= dj <= 1 && k == 3 * (di + 1) + dj + 1
    ensures Offsets(k + 1) == if di == 0 && dj == 0 then Offsets(k) else Offsets(k) + [(di, dj)]
  {
    assert k / 3 - 1 == di && k % 3 - 1 == dj;
    assert k == 4 <==> di == 0 && dj == 0;
  }

  /** Lowers every entry to its neighbour at one offset. */
  method PoolShifted(m: array2<Height>, pooled: array2<Height>, di: int, dj: int, ghost g: Grid, ghost offs: seq<(int, int)>)
    requires -1 <= di <= 1 && -1 <= dj <= 1 && m.Length0 >= 1 && m.Length1 >= 1
    requires m != pooled && Shows(m, g) && Pooled(g, pooled, offs) && pooled.Length1 == m.Length1
    modifies pooled
    ensures Pooled(g, pooled, offs + [(di, dj)])
  {
    var shifted := Shift(m, di, dj, g);
    forall i, j | 0 <= i < pooled.Length0 && 0 <= j < pooled.Length1 {
      pooled[i, j] := MinH(pooled[i, j], shifted[i, j]);
    }
    forall i, j | 0 <= i < pooled.Length0 && 0 <= j < pooled.Length1
      ensures pooled[i, j] == PoolOver(g, i, j, offs + [(di, dj)])
    {
      PoolMore(g, i, j, offs, (di, dj));
      assert old(pooled[i, j]) == PoolOver(g, i, j, offs);
    }
  }

  method Copy(m: array2<Height>, ghost g: Grid) returns (pooled: array2<Height>)
    requires Shows(m, g)
    ensures fresh(pooled) && pooled.Length1 == m.Length1 && Pooled(g, pooled, Offsets(0))
  {
    pooled := new Height[m.Length0, m.Length1]((i, j) requires 0 <= i < m.Length0 && 0 <= j < m.Length1 reads m => m[i, j]);
    forall i, j | 0 <= i < m.Length0 && 0 <= j < m.Length1 ensures PoolOver(g, i, j, Offsets(0)) == g[i][j] {
      PoolMore(g, i, j, [], (0, 0));
    }
  }

  method MinPool(m: array2<Height>, ghost g: Grid) returns (pooled: array2<Height>)
    requires m.Length0 >= 1 && m.Length1 >= 1 && Shows(m, g)
    ensures fresh(pooled) && pooled.Length1 == m.Length1 && Pooled(g, pooled, Offsets(9))
  {
    pooled := Copy(m, g);
    ghost var k := 0;
    for di := -1 to 2
      invariant k == 3 * (di + 1) && Pooled(g, pooled, Offsets(k))
    {
      for dj := -1 to 2
        invariant k == 3 * (di + 1) + dj + 1 && Pooled(g, pooled, Offsets(k))
      {
        OffsetsStep(k, di, dj);
        if di != 0 || dj != 0 { PoolShifted(m, pooled, di, dj, g, Offsets(k)); }
        k := k + 1;
      }
    }
  }

  /** Pooling over a list of offsets takes the lowest entry it reaches. */
  lemma {:induction false} PoolIsLowest(g: Grid, i: int, j: int, offs: seq<(int, int)>)
    ensures forall o :: 0 <= o < |offs| ==> Le(PoolOver(g, i, j, offs), AtOffset(g, i, j, offs[o]))
    ensures PoolOver(g, i, j, offs).Fin? ==> exists o :: 0 <= o < |offs| && PoolOver(g, i, j, offs) == AtOffset(g, i, j, offs[o])
  {
    if offs != [] {
      var rest := offs[..|offs| - 1];
      PoolIsLowest(g, i, j, rest);
    }
  }

  ghost function AtOffset(g: Grid, i: int, j: int, o: (int, int)): Height { At(g, i + o.0, j + o.1) }

  // ---- Pooled cell minima are the local ground ----

  /** A cell's entry after masking: the lowest point in it, unless it is under-populated. */
  function CellLow(cells: seq<Cell>, h: seq<real>, minPts: int, c: Cell): Height
    requires |cells| == |h|
  {
    if Count(cells, |cells|, c) < minPts then Inf else Low(cells, h, |h|, c)
  }

  ghost predicate Inside(cells: seq<Cell>, w: nat, d: nat) {
    forall k :: 0 <= k < |cells| ==> 0 <= cells[k].0 < w && 0 <= cells[k].1 < d
  }

  ghost predicate HoldsMinima(g: Grid, cells: seq<Cell>, h: seq<real>, minPts: int, w: nat, d: nat)
    requires |cells| == |h|
  {
    && |g| == w && (forall i :: 0 <= i < w ==> |g[i]| == d)
    && forall i, j :: 0 <= i < w && 0 <= j < d ==> g[i][j] == CellLow(cells, h, minPts, (i, j))
  }

  lemma NineOffsets()
    ensures Offsets(9) == [(0, 0), (-1, -1), (-1, 0), (-1, 1), (0, -1), (0, 1), (1, -1), (1, 0), (1, 1)]
  {
    OffsetsStep(0, -1, -1);
    OffsetsStep(1, -1, 0);
    OffsetsStep(2, -1, 1);
    OffsetsStep(3, 0, -1);
    OffsetsStep(4, 0, 0);
    OffsetsStep(5, 0, 1);
    OffsetsStep(6, 1, -1);
    OffsetsStep(7, 1, 0);
    OffsetsStep(8, 1, 1);
  }

  lemma OffsetTo(c: Cell, a: Cell) returns (o: int)
    requires Touches(a, c)
    ensures 0 <= o < |Offsets(9)| && Offsets(9)[o] == (a.0 - c.0, a.1 - c.1)
  {
    NineOffsets();
    var k := 3 * (a.0 - c.0 + 1) + a.1 - c.1 + 1;
    o := if k < 4 then k + 1 else if k == 4 then 0 else k;
  }

  lemma PoolBelow(g: Grid, cells: seq<Cell>, h: seq<real>, minPts: int, w: nat, d: nat, c: Cell, q: int)
    requires |cells| == |h| && Inside(cells, w, d) && HoldsMinima(g, cells, h, minPts, w, d)
    requires 0 <= q < |h| && Supports(cells, minPts, q, c)
    ensures Le(PoolOver(g, c.0, c.1, Offsets(9)), Fin(h[q]))
  {
    var a := cells[q];
    var o := OffsetTo(c, a);
    PoolIsLowest(g, c.0, c.1, Offsets(9));
    assert AtOffset(g, c.0, c.1, Offsets(9)[o]) == g[a.0][a.1] == CellLow(cells, h, minPts, a);
    LowIsLowest(cells, h, |h|, a);
    assert Le(Low(cells, h, |h|, a), Fin(h[q]));
  }

  predicate IsNear(o: (int, int)) { -1 <= o.0 <= 1 && -1 <= o.1 <= 1 }

  lemma PoolAttained(g: Grid, cells: seq<Cell>, h: seq<real>, minPts: int, w: nat, d: nat, c: Cell, offs: seq<(int, int)>)
    returns (q: int)
    requires |cells| == |h| && Inside(cells, w, d) && HoldsMinima(g, cells, h, minPts, w, d)
    requires PoolOver(g, c.0, c.1, offs).Fin? && forall o :: 0 <= o < |offs| ==> IsNear(offs[o])
    ensures 0 <= q < |h| && Supports(cells, minPts, q, c) && PoolOver(g, c.0, c.1, offs) == Fin(h[q])
  {
    var o := PoolWitness(g, c.0, c.1, offs);
    assert IsNear(offs[o]);
    var a := (c.0 + offs[o].0, c.1 + offs[o].1);
    assert 0 <= a.0 < w && 0 <= a.1 < d;
    assert g[a.0][a.1] == CellLow(cells, h, minPts, a);
    q := LowWitness(cells, h, a);
  }

  lemma OffsetsAreNear()
    ensures forall o :: 0 <= o < |Offsets(9)| ==> IsNear(Offsets(9)[o])
  {
    NineOffsets();
  }

  lemma PoolWitness(g: Grid, i: int, j: int, offs: seq<(int, int)>) returns (o: int)
    requires PoolOver(g, i, j, offs).Fin?
    ensures 0 <= o < |offs| && PoolOver(g, i, j, offs) == AtOffset(g, i, j, offs[o])
  {
    PoolIsLowest(g, i, j, offs);
    o :| 0 <= o < |offs| && PoolOver(g, i, j, offs) == AtOffset(g, i, j, offs[o]);
  }

  lemma LowWitness(cells: seq<Cell>, h: seq<real>, a: Cell) returns (q: int)
    requires |cells| == |h| && Low(cells, h, |h|, a).Fin?
    ensures 0 <= q < |h| && cells[q] == a && Low(cells, h, |h|, a) == Fin(h[q])
  {
    LowIsLowest(cells, h, |h|, a);
    q :| 0 <= q < |h| && cells[q] == a && Low(cells, h, |h|, a) == Fin(h[q]);
  }

  /** For every grid width and depth, the eight shifted minima compute at each cell the lowest
      height among the points of the populated cells around it. */
  lemma PoolIsGround(g: Grid, cells: seq<Cell>, h: seq<real>, minPts: int, w: nat, d: nat, c: Cell)
    requires |cells| == |h| && Inside(cells, w, d) && HoldsMinima(g, cells, h, minPts, w, d)
    ensures PoolOver(g, c.0, c.1, Offsets(9)) == Ground(cells, h, minPts, |h|, c)
  {
    var v := PoolOver(g, c.0, c.1, Offsets(9));
    forall q | 0 <= q < |h| && Supports(cells, minPts, q, c) ensures Le(v, Fin(h[q])) {
      PoolBelow(g, cells, h, minPts, w, d, c, q);
    }
    OffsetsAreNear();
    if v.Fin? { var q := PoolAttained(g, cells, h, minPts, w, d, c, Offsets(9)); }
    GroundIsLowest(cells, h, minPts, |h|, c);
    GroundIsUnique(cells, h, minPts, |h|, c, v, Ground(cells, h, minPts, |h|, c));
  }

  // ---- The grid does not depend on where it starts ----

  function Moved(c: Cell, corner: Cell): Cell { (c.0 - corner.0, c.1 - corner.1) }

  ghost predicate AreMoved(cells: seq<Cell>, moved: seq<Cell>, corner: Cell) {
    |moved| == |cells| && forall k :: 0 <= k < |cells| ==> moved[k] == Moved(cells[k], corner)
  }

  lemma {:induction false} MovedCount(cells: seq<Cell>, moved: seq<Cell>, corner: Cell, n: nat, c: Cell)
    requires AreMoved(cells, moved, corner) && n <= |cells|
    ensures Count(moved, n, Moved(c, corner)) == Count(cells, n, c)
  {
    if n > 0 { MovedCount(cells, moved, corner, n - 1, c); }
  }

  lemma {:induction false} MovedGround(cells: seq<Cell>, moved: seq<Cell>, corner: Cell, h: seq<real>, minPts: int, n: nat, c: Cell)
    requires AreMoved(cells, moved, corner) && n <= |cells| == |h|
    ensures Ground(moved, h, minPts, n, Moved(c, corner)) == Ground(cells, h, minPts, n, c)
  {
    if n > 0 {
      MovedGround(cells, moved, corner, h, minPts, n - 1, c);
      MovedCount(cells, moved, corner, |cells|, cells[n - 1]);
    }
  }

  // ---- The filter ----

  /** Unbuffered minimum and count per cell, then the mask. */
  method CellMinima(cells: seq<Cell>, h: seq<real>, minPts: int, w: nat, d: nat) returns (m: array2<Height>, ghost g: Grid)
    requires |cells| == |h| && Inside(cells, w, d)
    ensures fresh(m) && m.Length0 == w && m.Length1 == d && Shows(m, g) && HoldsMinima(g, cells, h, minPts, w, d)
  {
    m := Lows(cells, h, w, d);
    var cnt := Counts(cells, w, d);
    forall i, j | 0 <= i < w && 0 <= j < d {
      m[i, j] := if cnt[i, j] < minPts then Inf else m[i, j];
    }
    g := MinimaGrid(cells, h, minPts, w, d);
  }

  ghost function MinimaGrid(cells: seq<Cell>, h: seq<real>, minPts: int, w: nat, d: nat): (g: Grid)
    requires |cells| == |h|
    ensures HoldsMinima(g, cells, h, minPts, w, d)
  {
    seq(w, i requires 0 <= i < w => seq(d, j requires 0 <= j < d => CellLow(cells, h, minPts, (i, j))))
  }

  method Lows(cells: seq<Cell>, h: seq<real>, w: nat, d: nat) returns (m: array2<Height>)
    requires |cells| == |h| && Inside(cells, w, d)
    ensures fresh(m) && m.Length0 == w && m.Length1 == d
    ensures forall i, j :: 0 <= i < w && 0 <= j < d ==> m[i, j] == Low(cells, h, |h|, (i, j))
  {
    m := new Height[w, d]((_, _) => Inf);
    var k := 0;
    while k < |h|
      invariant 0 <= k <= |h|
      invariant forall i, j :: 0 <= i < w && 0 <= j < d ==> m[i, j] == Low(cells, h, k, (i, j))
    {
      var c := cells[k];
      m[c.0, c.1] := MinH(m[c.0, c.1], Fin(h[k]));
      k := k + 1;
    }
  }

  method Counts(cells: seq<Cell>, w: nat, d: nat) returns (cnt: array2<int>)
    requires Inside(cells, w, d)
    ensures fresh(cnt) && cnt.Length0 == w && cnt.Length1 == d
    ensures forall i, j :: 0 <= i < w && 0 <= j < d ==> cnt[i, j] == Count(cells, |cells|, (i, j))
  {
    cnt := new int[w, d]((_, _) => 0);
    var k := 0;
    while k < |cells|
      invariant 0 <= k <= |cells|
      invariant forall i, j :: 0 <= i < w && 0 <= j < d ==> cnt[i, j] == Count(cells, k, (i, j))
    {
      var c := cells[k];
      cnt[c.0, c.1] := cnt[c.0, c.1] + 1;
      k := k + 1;
    }
  }

  /** The smallest rectangle of cells, and the cells counted from its corner. */
  method Rebase(cells: seq<Cell>) returns (moved: seq<Cell>, corner: Cell, w: nat, d: nat)
    requires cells != []
    ensures AreMoved(cells, moved, corner) && Inside(moved, w, d) && w >= 1 && d >= 1
  {
    var x0, y0, x1, y1 := cells[0].0, cells[0].1, cells[0].0, cells[0].1;
    var k := 1;
    while k < |cells|
      invariant 1 <= k <= |cells|
      invariant forall l :: 0 <= l < k ==> x0 <= cells[l].0 <= x1 && y0 <= cells[l].1 <= y1
    {
      var c := cells[k];
      if c.0 < x0 { x0 := c.0; }
      if c.0 > x1 { x1 := c.0; }
      if c.1 < y0 { y0 := c.1; }
      if c.1 > y1 { y1 := c.1; }
      k := k + 1;
    }
    assert x0 <= cells[0].0 <= x1 && y0 <= cells[0].1 <= y1;
    corner, w, d := (x0, y0), x1 - x0 + 1, y1 - y0 + 1;
    moved := seq(|cells|, l requires 0 <= l < |cells| => Moved(cells[l], (x0, y0)));
  }

  function CellsOf(xyz: seq<Point>, cell: real): seq<Cell>
    requires cell != 0.0
  {
    seq(|xyz|, k requires 0 <= k < |xyz| => CellOf(xyz[k], cell))
  }

  function HeightsOf(xyz: seq<Point>, up: Point): seq<real> {
    seq(|xyz|, k requires 0 <= k < |xyz| => HeightOf(xyz[k], up))
  }

  /** The whole filter: below the cutoff only high points go; otherwise the points kept are, in
      order, those whose rise over the local ground is in the band, fail-open cells included.
      With no cutoff an empty cloud has no extreme cell and the reduction fails. */
  method SegmentGround(xyz: seq<Point>, up: Point, robotZ: real, p: Params) returns (out: Option<seq<Point>>)
    requires p.cell != 0.0
    ensures var foot, h, n := robotZ - p.legOffset, HeightsOf(xyz, up), |xyz|;
            out == if n < p.minTotal then Some(NotTooHigh(xyz, h, p, foot, n))
                   else if n == 0 then None
                   else Some(Kept(xyz, CellsOf(xyz, p.cell), h, p, foot, n))
  {
    var foot, h := robotZ - p.legOffset, HeightsOf(xyz, up);
    if |xyz| < p.minTotal {
      var kept := DropHigh(xyz, h, p, foot);
      return Some(kept);
    }
    if xyz == [] { return None; }
    var kept := Segment(xyz, CellsOf(xyz, p.cell), h, p, foot);
    out := Some(kept);
  }

  method DropHigh(xyz: seq<Point>, h: seq<real>, p: Params, foot: real) returns (out: seq<Point>)
    requires |xyz| == |h|
    ensures out == NotTooHigh(xyz, h, p, foot, |xyz|)
  {
    out := [];
    for k := 0 to |xyz|
      invariant out == NotTooHigh(xyz, h, p, foot, k)
    {
      if h[k] - foot <= p.maxHeight { out := out + [xyz[k]]; }
    }
  }

  method Segment(xyz: seq<Point>, cells: seq<Cell>, h: seq<real>, p: Params, foot: real) returns (out: seq<Point>)
    requires |xyz| == |cells| == |h| && xyz != []
    ensures out == Kept(xyz, cells, h, p, foot, |xyz|)
  {
    var moved, corner, w, d := Rebase(cells);
    var m, g := CellMinima(moved, h, p.minPts, w, d);
    var pooled := MinPool(m, g);
    var ground := GroundPerPoint(cells, h, p.minPts, moved, corner, w, d, g, pooled);
    out := [];
    for k := 0 to |xyz|
      invariant out == Kept(xyz, cells, h, p, foot, k)
    {
      if Keeps(p, Rise(ground[k], h[k], foot)) { out := out + [xyz[k]]; }
    }
  }

  /** The pooled grid looked up at every point. */
  method GroundPerPoint(ghost cells: seq<Cell>, ghost h: seq<real>, ghost minPts: int, moved: seq<Cell>, ghost corner: Cell,
                        ghost w: nat, ghost d: nat, ghost g: Grid, pooled: array2<Height>)
    returns (ground: seq<Height>)
    requires |cells| == |h| && AreMoved(cells, moved, corner) && Inside(moved, w, d)
    requires HoldsMinima(g, moved, h, minPts, w, d)
    requires Pooled(g, pooled, Offsets(9)) && pooled.Length0 == w && pooled.Length1 == d
    ensures |ground| == |cells| && forall k :: 0 <= k < |cells| ==> ground[k] == Ground(cells, h, minPts, |h|, cells[k])
  {
    ground := seq(|moved|, k requires 0 <= k < |moved| reads pooled => pooled[moved[k].0, moved[k].1]);
    forall k | 0 <= k < |cells| ensures ground[k] == Ground(cells, h, minPts, |h|, cells[k]) {
      assert ground[k] == pooled[moved[k].0, moved[k].1];
      PooledGround(cells, moved, corner, h, minPts, w, d, g, k);
    }
  }

  lemma PooledGround(cells: seq<Cell>, moved: seq<Cell>, corner: Cell, h: seq<real>, minPts: int, w: nat, d: nat, g: Grid, k: nat)
    requires |cells| == |h| && AreMoved(cells, moved, corner) && Inside(moved, w, d)
    requires HoldsMinima(g, moved, h, minPts, w, d) && k < |cells|
    ensures PoolOver(g, moved[k].0, moved[k].1, Offsets(9)) == Ground(cells, h, minPts, |h|, cells[k])
  {
    PoolIsGround(g, moved, h, minPts, w, d, moved[k]);
    MovedGround(cells, moved, corner, h, minPts, |h|, cells[k]);
  }

  // ---- What is kept, in terms of the points ----

  predicate InBox(p: Point, cell: real, c: Cell) { InStep(p.x, cell, c.0) && InStep(p.y, cell, c.1) }

  lemma CellIsBox(p: Point, cell: real, c: Cell)
    requires cell != 0.0
    ensures CellOf(p, cell) == c <==> InBox(p, cell, c)
  {
    FloorOfQuotient(p.x, cell, c.0);
    FloorOfQuotient(p.y, cell, c.1);
  }

  ghost function Members(xyz: seq<Point>, cell: real, n: nat, c: Cell): set<int>
    requires n <= |xyz|
  {
    set q | 0 <= q < n && InBox(xyz[q], cell, c)
  }

  lemma {:induction false} CountIsSize(xyz: seq<Point>, cell: real, n: nat, c: Cell)
    requires cell != 0.0 && n <= |xyz|
    ensures Count(CellsOf(xyz, cell), n, c) == |Members(xyz, cell, n, c)|
  {
    if n > 0 {
      CountIsSize(xyz, cell, n - 1, c);
      CellIsBox(xyz[n - 1], cell, c);
      var rest := Members(xyz, cell, n - 1, c);
      assert Members(xyz, cell, n, c) == if InBox(xyz[n - 1], cell, c) then rest + {n - 1} else rest;
    }
  }

  /** Point q tells the ground at point k: their boxes touch, and that of q holds at least minPts points. */
  ghost predicate Tells(xyz: seq<Point>, cell: real, minPts: int, q: int, k: int)
    requires 0 <= q < |xyz| && 0 <= k < |xyz|
  {
    exists a: Cell, b: Cell ::
      && InBox(xyz[q], cell, a) && InBox(xyz[k], cell, b)
      && -1 <= b.0 - a.0 <= 1 && -1 <= b.1 - a.1 <= 1
      && |Members(xyz, cell, |xyz|, a)| >= minPts
  }

  lemma TellsIsSupports(xyz: seq<Point>, cell: real, minPts: int, q: int, k: int)
    requires cell != 0.0 && 0 <= q < |xyz| && 0 <= k < |xyz|
    ensures Tells(xyz, cell, minPts, q, k) <==> Supports(CellsOf(xyz, cell), minPts, q, CellOf(xyz[k], cell))
  {
    var a, b := CellOf(xyz[q], cell), CellOf(xyz[k], cell);
    CellIsBox(xyz[q], cell, a);
    CellIsBox(xyz[k], cell, b);
    CountIsSize(xyz, cell, |xyz|, a);
    if Tells(xyz, cell, minPts, q, k) {
      var d: Cell, e: Cell :|
        && InBox(xyz[q], cell, d) && InBox(xyz[k], cell, e)
        && -1 <= e.0 - d.0 <= 1 && -1 <= e.1 - d.1 <= 1
        && |Members(xyz, cell, |xyz|, d)| >= minPts;
      CellIsBox(xyz[q], cell, d);
      CellIsBox(xyz[k], cell, e);
    }
  }

  /** How far p stands above q along the up direction. */
  function Above(p: Point, q: Point, up: Point): real {
    (p.x - q.x) * up.x + (p.y - q.y) * up.y + (p.z - q.z) * up.z
  }

  lemma AboveIsDifference(p: Point, q: Point, up: Point)
    ensures Above(p, q, up) == HeightOf(p, up) - HeightOf(q, up)
  {
  }

  /** Height above the foot. */
  function AboveFoot(p: Point, up: Point, foot: real): real { up.x * p.x + up.y * p.y + up.z * p.z - foot }

  ghost predicate Told(xyz: seq<Point>, cell: real, minPts: int, k: int)
    requires 0 <= k < |xyz|
  {
    exists q :: 0 <= q < |xyz| && Tells(xyz, cell, minPts, q, k)
  }

  /** An obstacle point: above the band over some point that tells its ground, and not above the limit
      over any of them; where none does, the same over the foot. */
  ghost predicate IsObstacle(xyz: seq<Point>, up: Point, foot: real, p: Params, k: int)
    requires 0 <= k < |xyz|
  {
    if Told(xyz, p.cell, p.minPts, k) then
      && (exists q :: 0 <= q < |xyz| && Tells(xyz, p.cell, p.minPts, q, k) && Above(xyz[k], xyz[q], up) > p.groundBand)
      && (forall q :: 0 <= q < |xyz| && Tells(xyz, p.cell, p.minPts, q, k) ==> Above(xyz[k], xyz[q], up) <= p.maxHeight)
    else
      AboveFoot(xyz[k], up, foot) > p.groundBand && AboveFoot(xyz[k], up, foot) <= p.maxHeight
  }

  /** The rise over the lowest supporting point, without a grid. */
  lemma RiseIsExact(cells: seq<Cell>, h: seq<real>, p: Params, foot: real, k: int)
    requires 0 <= k < |cells| == |h|
    ensures Passes(cells, h, p, foot, k) <==>
            if exists q :: 0 <= q < |h| && Supports(cells, p.minPts, q, cells[k]) then
              && (exists q :: 0 <= q < |h| && Supports(cells, p.minPts, q, cells[k]) && h[k] - h[q] > p.groundBand)
              && (forall q :: 0 <= q < |h| && Supports(cells, p.minPts, q, cells[k]) ==> h[k] - h[q] <= p.maxHeight)
            else
              h[k] - foot > p.groundBand && h[k] - foot <= p.maxHeight
  {
    var v := Ground(cells, h, p.minPts, |h|, cells[k]);
    GroundIsLowest(cells, h, p.minPts, |h|, cells[k]);
    forall q | 0 <= q < |h| && Supports(cells, p.minPts, q, cells[k]) ensures v.Fin? && h[k] - h[q] <= h[k] - v.h {
      assert Le(v, Fin(h[q]));
    }
    if v.Fin? {
      var q :| 0 <= q < |h| && Supports(cells, p.minPts, q, cells[k]) && v == Fin(h[q]);
    }
  }

  lemma ObstacleIsExact(xyz: seq<Point>, up: Point, foot: real, p: Params, k: int)
    requires p.cell != 0.0 && 0 <= k < |xyz|
    ensures Passes(CellsOf(xyz, p.cell), HeightsOf(xyz, up), p, foot, k) <==> IsObstacle(xyz, up, foot, p, k)
  {
    var cells, h := CellsOf(xyz, p.cell), HeightsOf(xyz, up);
    RiseIsExact(cells, h, p, foot, k);
    forall q | 0 <= q < |xyz|
      ensures Tells(xyz, p.cell, p.minPts, q, k) <==> Supports(cells, p.minPts, q, cells[k])
      ensures Above(xyz[k], xyz[q], up) == h[k] - h[q]
    {
      TellsIsSupports(xyz, p.cell, p.minPts, q, k);
      AboveIsDifference(xyz[k], xyz[q], up);
    }
  }

  /** The verdict of the grid on point k. */
  predicate Passes(cells: seq<Cell>, h: seq<real>, p: Params, foot: real, k: int)
    requires 0 <= k < |cells| == |h|
  {
    Keeps(p, Rise(Ground(cells, h, p.minPts, |h|, cells[k]), h[k], foot))
  }

  lemma {:induction false} KeptIsMarked(xyz: seq<Point>, cells: seq<Cell>, h: seq<real>, p: Params, foot: real,
                                        keep: seq<bool>, n: nat)
    requires n <= |xyz| == |cells| == |h| == |keep|
    requires forall k :: 0 <= k < |h| ==> keep[k] == Passes(cells, h, p, foot, k)
    ensures Kept(xyz, cells, h, p, foot, n) == Marked(xyz, keep, n)
  {
    if n > 0 { KeptIsMarked(xyz, cells, h, p, foot, keep, n - 1); }
  }

  lemma KeptIsPicked(xyz: seq<Point>, cells: seq<Cell>, h: seq<real>, p: Params, foot: real) returns (idx: seq<int>)
    requires |xyz| == |cells| == |h|
    ensures Picked(xyz, idx, |xyz|, Kept(xyz, cells, h, p, foot, |xyz|))
    ensures forall k :: 0 <= k < |xyz| ==> (k in idx <==> Passes(cells, h, p, foot, k))
  {
    var keep := seq(|xyz|, k requires 0 <= k < |xyz| => Passes(cells, h, p, foot, k));
    KeptIsMarked(xyz, cells, h, p, foot, keep, |xyz|);
    idx := MarkedIsPicked(xyz, keep, |xyz|);
  }

  /** The points kept are, in order, exactly the obstacle points of the cloud. */
  lemma ObstaclesAreKept(xyz: seq<Point>, up: Point, robotZ: real, p: Params) returns (idx: seq<int>)
    requires p.cell != 0.0
    ensures var foot := robotZ - p.legOffset;
            && Picked(xyz, idx, |xyz|, Kept(xyz, CellsOf(xyz, p.cell), HeightsOf(xyz, up), p, foot, |xyz|))
            && forall k :: 0 <= k < |xyz| ==> (k in idx <==> IsObstacle(xyz, up, foot, p, k))
  {
    var foot := robotZ - p.legOffset;
    idx := KeptIsPicked(xyz, CellsOf(xyz, p.cell), HeightsOf(xyz, up), p, foot);
    forall k | 0 <= k < |xyz| ensures k in idx <==> IsObstacle(xyz, up, foot, p, k) {
      ObstacleIsExact(xyz, up, foot, p, k);
    }
  }

  lemma {:induction false} LowIsMarked(xyz: seq<Point>, h: seq<real>, p: Params, foot: real, keep: seq<bool>, n: nat)
    requires n <= |xyz| == |h| == |keep|
    requires forall k :: 0 <= k < |h| ==> keep[k] == (h[k] - foot <= p.maxHeight)
    ensures NotTooHigh(xyz, h, p, foot, n) == Marked(xyz, keep, n)
  {
    if n > 0 { LowIsMarked(xyz, h, p, foot, keep, n - 1); }
  }

  /** In a sparse cloud: exactly the points not too far above the foot. */
  lemma LowAreKept(xyz: seq<Point>, up: Point, robotZ: real, p: Params) returns (idx: seq<int>)
    ensures var foot := robotZ - p.legOffset;
            && Picked(xyz, idx, |xyz|, NotTooHigh(xyz, HeightsOf(xyz, up), p, foot, |xyz|))
            && forall k :: 0 <= k < |xyz| ==> (k in idx <==> AboveFoot(xyz[k], up, foot) <= p.maxHeight)
  {
    var foot, h := robotZ - p.legOffset, HeightsOf(xyz, up);
    var keep := seq(|xyz|, k requires 0 <= k < |xyz| => h[k] - foot <= p.maxHeight);
    LowIsMarked(xyz, h, p, foot, keep, |xyz|);
    idx := MarkedIsPicked(xyz, keep, |xyz|);
    forall k | 0 <= k < |xyz| ensures AboveFoot(xyz[k], up, foot) == h[k] - foot { }
  }
}
