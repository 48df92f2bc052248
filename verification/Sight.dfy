/** Bresenham line of sight. */
module Sight {
  import opened Grids

  function Abs(x: int): (r: int)
    ensures r >= 0
  {
    if x < 0 then -x else x
  }

  function Sign(from: int, to: int): int { if from < to then 1 else -1 }

  /** k steps from one coordinate toward another. */
  function Along(from: int, to: int, k: int): int { if from < to then from + k else from - k }

  /** num/den rounded to the nearest integer, halves down. */
  function HalfDown(num: int, den: int): int
    requires den > 0
  {
    (2 * num + den - 1) / (2 * den)
  }

  /** Twice the gap between t minor steps and k major steps. */
  function Residue(t: int, k: int, minor: int, major: int): int {
    2 * (t * minor) - 2 * (k * major)
  }

  lemma ResidueSteps(t: int, k: int, minor: int, major: int)
    ensures Residue(t + 1, k, minor, major) == Residue(t, k, minor, major) + 2 * minor
    ensures Residue(t + 1, k + 1, minor, major) == Residue(t, k, minor, major) + 2 * minor - 2 * major
  {
  }

  /** Rounding is characterised by a residue of at most half a major step either way. */
  lemma ResidueRounds(t: int, k: int, minor: int, major: int)
    requires major > 0
    ensures -major < Residue(t, k, minor, major) <= major <==> k == HalfDown(t * minor, major)
  {
    var q := HalfDown(t * minor, major);
    var num := 2 * (t * minor) + major - 1;
    DivisionBounds(num, 2 * major);
    Multiples(k, q, major);
  }

  lemma DivisionBounds(num: int, den: int)
    requires den > 0
    ensures den * (num / den) <= num < den * (num / den) + den
  {
  }

  lemma Multiples(k: int, q: int, major: int)
    requires major > 0
    ensures (2 * major) * q == 2 * (q * major)
    ensures k < q ==> k * major <= q * major - major
    ensures q < k ==> q * major <= k * major - major
  {
    if k < q { MultipleGap(k, q, major); }
    if q < k { MultipleGap(q, k, major); }
  }

  lemma MultipleGap(k: int, q: int, major: int)
    requires major > 0 && k < q
    ensures k * major <= q * major - major
  {
    var d := q - k - 1;
    assert d * major >= 0;
    assert d * major == q * major - k * major - major;
  }

  /** Number of moves along the line: the larger of the two offsets. */
  function Length(a: Cell, b: Cell): (n: int)
    ensures n >= 0
  {
    var dx, dy := Abs(b.x - a.x), Abs(b.y - a.y);
    if dx >= dy then dx else dy
  }

  function Breadth(a: Cell, b: Cell): (n: int)
    ensures n >= 0
  {
    var dx, dy := Abs(b.x - a.x), Abs(b.y - a.y);
    if dx >= dy then dy else dx
  }

  predicate Flat(a: Cell, b: Cell) {
    Abs(b.x - a.x) >= Abs(b.y - a.y)
  }

  /** t steps along the longer offset and k along the shorter one. */
  function Offset(a: Cell, b: Cell, t: int, k: int): Cell {
    if Flat(a, b) then Cell(Along(a.x, b.x, t), Along(a.y, b.y, k))
    else Cell(Along(a.x, b.x, k), Along(a.y, b.y, t))
  }

  /** The cell after t moves: t along the longer offset, the other rounded to the ideal line. */
  function LineCell(a: Cell, b: Cell, t: nat): Cell {
    if a == b then a else Offset(a, b, t, HalfDown(t * Breadth(a, b), Length(a, b)))
  }

  /** The line starts and ends at the given cells. */
  lemma LineEnds(a: Cell, b: Cell)
    ensures LineCell(a, b, 0) == a && LineCell(a, b, Length(a, b)) == b
  {
    if a != b {
      var minor, major := Breadth(a, b), Length(a, b);
      assert Residue(0, 0, minor, major) == 0 && Residue(major, minor, minor, major) == 0;
      ResidueRounds(0, 0, minor, major);
      ResidueRounds(major, minor, minor, major);
    }
  }

  /** No overshoot, and every cell lies within half a cell of the ideal line: after t moves along
      the longer offset, k along the shorter one with |k - t * minor / major| at most 1/2. */
  lemma LineIsClose(a: Cell, b: Cell, t: nat)
    requires t <= Length(a, b)
    ensures exists k :: LineCell(a, b, t) == Offset(a, b, t, k)
                        && 0 <= k <= Breadth(a, b)
                        && Abs(2 * (k * Length(a, b)) - 2 * (t * Breadth(a, b))) <= Length(a, b)
  {
    if a == b {
      assert LineCell(a, b, t) == Offset(a, b, t, 0) && 0 * Length(a, b) == 0 && t * Breadth(a, b) == 0;
    } else {
      var minor, major := Breadth(a, b), Length(a, b);
      var k := HalfDown(t * minor, major);
      ResidueRounds(t, k, minor, major);
      RoundingInRange(t, k, minor, major);
      assert LineCell(a, b, t) == Offset(a, b, t, k);
    }
  }

  lemma RoundingInRange(t: int, k: int, minor: int, major: int)
    requires 0 <= minor <= major && 0 <= t <= major && major > 0
    requires -major < Residue(t, k, minor, major) <= major
    ensures 0 <= k <= minor
  {
    Shrinks(t, minor, major);
    if k < 0 { MultipleGap(k, 0, major); }
    if k > minor { MultipleGap(minor, k, major); }
  }

  lemma Shrinks(t: int, minor: int, major: int)
    requires 0 <= minor && 0 <= t <= major
    ensures 0 <= t * minor <= minor * major
  {
    assert (major - t) * minor >= 0;
  }

  predicate Between(a: int, c: int, b: int) { a <= c <= b || b <= c <= a }

  /** c is the coordinate at t of n equal steps from a to b, rounded to the nearest, halves toward a. */
  predicate Rounded(a: int, b: int, n: int, t: int, c: int) {
    Between(a, c, b) && -n < 2 * (t * Abs(b - a)) - 2 * (Abs(c - a) * n) <= n
  }

  /** The t-th cell of the line is the one whose two coordinates are those of the straight segment,
      divided into as many steps as the larger of the two offsets, each rounded to the nearest. */
  lemma LineIsRounded(a: Cell, b: Cell, n: nat, t: nat, c: Cell)
    requires a != b && t <= n
    requires Abs(b.x - a.x) <= n && Abs(b.y - a.y) <= n && (Abs(b.x - a.x) == n || Abs(b.y - a.y) == n)
    ensures LineCell(a, b, t) == c <==> Rounded(a.x, b.x, n, t, c.x) && Rounded(a.y, b.y, n, t, c.y)
  {
    var minor := Breadth(a, b);
    var k := HalfDown(t * minor, n);
    ResidueRounds(t, k, minor, n);
    RoundingInRange(t, k, minor, n);
    if Flat(a, b) {
      LongerAxis(a.x, b.x, n, t, c.x);
      ShorterAxis(a.y, b.y, n, t, k, minor, c.y);
    } else {
      LongerAxis(a.y, b.y, n, t, c.y);
      ShorterAxis(a.x, b.x, n, t, k, minor, c.x);
    }
  }

  lemma LongerAxis(a: int, b: int, n: nat, t: nat, c: int)
    requires t <= n && n > 0 && Abs(b - a) == n
    ensures c == Along(a, b, t) <==> Rounded(a, b, n, t, c)
  {
    var u := Abs(c - a);
    if u < t { MultipleGap(u, t, n); }
    if t < u { MultipleGap(t, u, n); }
  }

  lemma ShorterAxis(a: int, b: int, n: nat, t: nat, k: int, minor: int, c: int)
    requires n > 0 && Abs(b - a) == minor && k == HalfDown(t * minor, n) && 0 <= k <= minor
    ensures c == Along(a, b, k) <==> Rounded(a, b, n, t, c)
  {
    ResidueRounds(t, Abs(c - a), minor, n);
  }

  /** What it means that a sees b: every cell of the line is free. */
  ghost predicate Sees(s: Settings, g: Grid, a: Cell, b: Cell)
    requires WellFormed(g)
  {
    forall t: nat :: t <= Length(a, b) ==> IsFree(s, g, LineCell(a, b, t))
  }

  /** One turn of the error-term loop: where the line goes next. */
  function Advance(a: Cell, b: Cell, c: Cell, err: int): (Cell, int) {
    var dx, dy := Abs(b.x - a.x), Abs(b.y - a.y);
    var mx, my := 2 * err > -dy, 2 * err < dx;
    (Cell(if mx then c.x + Sign(a.x, b.x) else c.x, if my then c.y + Sign(a.y, b.y) else c.y),
     err - (if mx then dy else 0) + (if my then dx else 0))
  }

  /** Cell and error term after t turns. */
  function Trace(a: Cell, b: Cell, t: nat): (Cell, int) {
    if t == 0 then (a, Abs(b.x - a.x) - Abs(b.y - a.y))
    else var (c, err) := Trace(a, b, t - 1); Advance(a, b, c, err)
  }

  /** The running values in terms of the t moves made, k of them also along the shorter offset;
      r is the residue, which a square line keeps at zero. */
  ghost predicate Progress(a: Cell, b: Cell, t: int, k: int, r: int, c: Cell, err: int) {
    var minor, major := Breadth(a, b), Length(a, b);
    && c == Offset(a, b, t, k)
    && -major < r <= major
    && (minor == major ==> r == 0)
    && 2 * err == if Flat(a, b) then 2 * major - 2 * minor - r else -(2 * major - 2 * minor - r)
  }

  /** One turn always moves along the longer offset, and along the shorter one exactly when the
      residue asks for it. */
  lemma AdvanceProgress(a: Cell, b: Cell, t: int, k: int, r: int, c: Cell, err: int)
    requires a != b && Progress(a, b, t, k, r, c, err)
    ensures var (c', err') := Advance(a, b, c, err);
            var minor, major := Breadth(a, b), Length(a, b);
            if 2 * major - 2 * minor - r < major then Progress(a, b, t + 1, k + 1, r + 2 * minor - 2 * major, c', err')
            else Progress(a, b, t + 1, k, r + 2 * minor, c', err')
  {
  }

  /** The error-term loop walks exactly the rounded line. */
  lemma {:induction false} TraceProgress(a: Cell, b: Cell, t: nat) returns (k: int)
    requires a != b
    ensures Progress(a, b, t, k, Residue(t, k, Breadth(a, b), Length(a, b)), Trace(a, b, t).0, Trace(a, b, t).1)
  {
    if t == 0 {
      k := 0;
      assert Residue(0, 0, Breadth(a, b), Length(a, b)) == 0;
    } else {
      var minor, major := Breadth(a, b), Length(a, b);
      var j := TraceProgress(a, b, t - 1);
      var r := Residue(t - 1, j, minor, major);
      AdvanceProgress(a, b, t - 1, j, r, Trace(a, b, t - 1).0, Trace(a, b, t - 1).1);
      ResidueSteps(t - 1, j, minor, major);
      k := if 2 * major - 2 * minor - r < major then j + 1 else j;
    }
  }

  lemma TraceIsLine(a: Cell, b: Cell, t: nat)
    requires t <= Length(a, b)
    ensures Trace(a, b, t).0 == LineCell(a, b, t)
  {
    if a != b {
      var k := TraceProgress(a, b, t);
      ResidueRounds(t, k, Breadth(a, b), Length(a, b));
    }
  }

  /** The target is reached after exactly Length moves, never before. */
  lemma TraceEnds(a: Cell, b: Cell, t: nat)
    requires t <= Length(a, b)
    ensures Trace(a, b, t).0 == b <==> t == Length(a, b)
  {
    TraceIsLine(a, b, t);
    LineEnds(a, b);
    if t < Length(a, b) && a != b { var k := TraceProgress(a, b, t); }
  }

  /** The first t cells the loop visits are free. */
  ghost predicate FreeSoFar(s: Settings, g: Grid, a: Cell, b: Cell, t: nat)
    requires WellFormed(g)
  {
    forall u: nat :: u < t ==> IsFree(s, g, Trace(a, b, u).0)
  }

  lemma BlockedIsUnseen(s: Settings, g: Grid, a: Cell, b: Cell, t: nat)
    requires WellFormed(g) && t <= Length(a, b) && !IsFree(s, g, Trace(a, b, t).0)
    ensures !Sees(s, g, a, b)
  {
    TraceIsLine(a, b, t);
    assert !IsFree(s, g, LineCell(a, b, t));
  }

  lemma FreeToTheEndIsSeen(s: Settings, g: Grid, a: Cell, b: Cell)
    requires WellFormed(g) && FreeSoFar(s, g, a, b, Length(a, b) + 1)
    ensures Sees(s, g, a, b)
  {
    forall t: nat | t <= Length(a, b) ensures IsFree(s, g, LineCell(a, b, t)) {
      TraceIsLine(a, b, t);
      assert IsFree(s, g, Trace(a, b, t).0);
    }
  }

  lemma TraceStep(a: Cell, b: Cell, t: nat)
    ensures Trace(a, b, t + 1) == Advance(a, b, Trace(a, b, t).0, Trace(a, b, t).1)
  {
  }

  /** The body of the loop: a move along x, along y or along both. */
  method Turn(ghost a: Cell, ghost b: Cell, dx: int, dy: int, sx: int, sy: int, c: Cell, err: int) returns (c': Cell, err': int)
    requires dx == Abs(b.x - a.x) && dy == Abs(b.y - a.y) && sx == Sign(a.x, b.x) && sy == Sign(a.y, b.y)
    ensures (c', err') == Advance(a, b, c, err)
  {
    c', err' := c, err;
    var e2 := 2 * err;
    if e2 > -dy {
      err' := err' - dy;
      c' := Cell(c'.x + sx, c'.y);
    }
    if e2 < dx {
      err' := err' + dx;
      c' := Cell(c'.x, c'.y + sy);
    }
  }

  method LineOfSight(s: Settings, g: Grid, a: Cell, b: Cell) returns (clear: bool)
    requires WellFormed(g)
    ensures clear <==> Sees(s, g, a, b)
  {
    var dx, dy := Abs(b.x - a.x), Abs(b.y - a.y);
    var sx, sy := Sign(a.x, b.x), Sign(a.y, b.y);
    var err := dx - dy;
    var c := a;
    ghost var t := 0;
    while true
      invariant 0 <= t <= Length(a, b) && c == Trace(a, b, t).0 && err == Trace(a, b, t).1
      invariant FreeSoFar(s, g, a, b, t)
      decreases Length(a, b) - t
    {
      if !IsFree(s, g, c) {
        BlockedIsUnseen(s, g, a, b, t);
        return false;
      }
      assert FreeSoFar(s, g, a, b, t + 1);
      TraceEnds(a, b, t);
      if c.x == b.x && c.y == b.y {
        FreeToTheEndIsSeen(s, g, a, b);
        return true;
      }
      TraceStep(a, b, t);
      c, err := Turn(a, b, dx, dy, sx, sy, c, err);
      t := t + 1;
    }
  }
}
