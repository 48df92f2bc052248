/** The per-cell ground filter of the occupancy grid, which groups points by one packed key. */
module ObstacleSegmentation {
  import opened Heights
  import opened Reals

  const STRIDE: int := 1_000_003

  type Cell = (int, int)

  datatype Point = Point(x: real, y: real, z: real)

  function CellOf(p: Point, reso: real): Cell
    requires reso != 0.0
  {
    ((p.x / reso).Floor, (p.y / reso).Floor)
  }

  function Key(c: Cell): int { c.0 * STRIDE + c.1 }

  /** Point k rises more than height above the lowest point with its label. */
  predicate Rises<T(==)>(labels: seq<T>, z: seq<real>, height: real, k: int)
    requires 0 <= k < |labels| == |z|
  {
    var low := Low(labels, z, |z|, labels[k]);
    low.Fin? && z[k] > low.h + height
  }

  ghost predicate Injective(cells: seq<Cell>) {
    forall i, j :: 0 <= i < |cells| && 0 <= j < |cells| && Key(cells[i]) == Key(cells[j]) ==> cells[i] == cells[j]
  }

  function Keys(cells: seq<Cell>): seq<int> { seq(|cells|, k requires 0 <= k < |cells| => Key(cells[k])) }

  ghost predicate SameVerdicts(cells: seq<Cell>, z: seq<real>, height: real)
    requires |cells| == |z|
  {
    forall k :: 0 <= k < |z| ==> (Rises(Keys(cells), z, height, k) <==> Rises(cells, z, height, k))
  }

  lemma {:induction false} SameLow(cells: seq<Cell>, z: seq<real>, n: nat, k: int)
    requires n <= |cells| == |z| && 0 <= k < |cells| && Injective(cells)
    ensures Low(Keys(cells), z, n, Keys(cells)[k]) == Low(cells, z, n, cells[k])
  {
    if n > 0 { SameLow(cells, z, n - 1, k); }
  }

  /** With a negative height every point rises above its own ground. */
  lemma NegativeHeightKeepsAll<T>(labels: seq<T>, z: seq<real>, height: real, k: int)
    requires 0 <= k < |labels| == |z| && height < 0.0
    ensures Rises(labels, z, height, k)
  {
    LowIsLowest(labels, z, |z|, labels[k]);
    assert Le(Low(labels, z, |z|, labels[k]), Fin(z[k]));
  }

  /** Two cells that share a key, and the heights that show it: cell j holds the only low points. */
  lemma CollisionShows(cells: seq<Cell>, height: real, i: int, j: int) returns (z: seq<real>)
    requires 0 <= i < |cells| && 0 <= j < |cells| && Key(cells[i]) == Key(cells[j]) && cells[i] != cells[j] && height >= 0.0
    ensures |z| == |cells| && !SameVerdicts(cells, z, height)
  {
    z := seq(|cells|, k requires 0 <= k < |cells| => if cells[k] == cells[i] then height + 1.0 else 0.0);
    LowIsLowest(cells, z, |z|, cells[i]);
    assert !Rises(cells, z, height, i);
    var keys := Keys(cells);
    LowIsLowest(keys, z, |z|, keys[i]);
    assert keys[j] == keys[i];
    assert Le(Low(keys, z, |z|, keys[i]), Fin(z[j]));
    assert z[j] == 0.0 && z[i] == height + 1.0;
    assert Rises(keys, z, height, i);
  }

  /** Exactly when grouping by key is grouping by cell, whatever the heights of the points: no two
      occupied cells share a key, or the height is negative and every point passes anyway. */
  lemma KeyedIsPerCellExactly(cells: seq<Cell>, height: real)
    ensures (forall z: seq<real> :: |z| == |cells| ==> SameVerdicts(cells, z, height)) <==> Injective(cells) || height < 0.0
  {
    if Injective(cells) || height < 0.0 {
      forall z: seq<real> | |z| == |cells| ensures SameVerdicts(cells, z, height) {
        forall k | 0 <= k < |z| ensures Rises(Keys(cells), z, height, k) <==> Rises(cells, z, height, k) {
          if Injective(cells) {
            SameLow(cells, z, |z|, k);
          } else {
            NegativeHeightKeepsAll(cells, z, height, k);
            NegativeHeightKeepsAll(Keys(cells), z, height, k);
          }
        }
      }
    } else {
      var i, j :| 0 <= i < |cells| && 0 <= j < |cells| && Key(cells[i]) == Key(cells[j]) && cells[i] != cells[j];
      var z := CollisionShows(cells, height, i, j);
    }
  }

  /** A cloud narrower than the stride in y has distinct keys. */
  lemma NarrowIsInjective(cells: seq<Cell>)
    requires forall i, j :: 0 <= i < |cells| && 0 <= j < |cells| ==> cells[i].1 - cells[j].1 < STRIDE
    ensures Injective(cells)
  {
    forall i, j | 0 <= i < |cells| && 0 <= j < |cells| && Key(cells[i]) == Key(cells[j]) ensures cells[i] == cells[j] {
      assert cells[i].1 - cells[j].1 < STRIDE && cells[j].1 - cells[i].1 < STRIDE;
      assert (cells[i].0 - cells[j].0) * STRIDE == cells[j].1 - cells[i].1;
    }
  }

  /** At the stride the keys meet: these two cells are grouped together. */
  lemma WideCollides()
    ensures Key((0, STRIDE)) == Key((1, 0)) && !Injective([(0, STRIDE), (1, 0)])
  {
    var cells := [(0, STRIDE), (1, 0)];
    assert Key(cells[0]) == Key(cells[1]) && cells[0] != cells[1];
  }

  // ---- The filter ----

  ghost predicate Ascending(ks: seq<int>) { forall i, j :: 0 <= i < j < |ks| ==> ks[i] <= ks[j] }

  ghost predicate Occurs(s: seq<int>, x: int) { exists i :: 0 <= i < |s| && s[i] == x }

  /** What sorting by key gives: every index once, keys in order. */
  ghost predicate Sorts(order: seq<int>, keys: seq<int>) {
    && |order| == |keys|
    && (forall i :: 0 <= i < |order| ==> 0 <= order[i] < |keys|)
    && (forall k :: 0 <= k < |keys| ==> Occurs(order, k))
    && (forall i, j :: 0 <= i < j < |order| ==> order[i] != order[j] && keys[order[i]] <= keys[order[j]])
  }

  function End(start: seq<int>, n: nat, g: int): int
    requires 0 <= g < |start|
  {
    if g + 1 < |start| then start[g + 1] else n
  }

  /** Group g of the first n sorted keys: a non-empty stretch of one key. */
  ghost predicate GroupAt(ks: seq<int>, n: nat, uniq: seq<int>, start: seq<int>, g: int)
    requires n <= |ks| && 0 <= g < |uniq| == |start|
  {
    && 0 <= start[g] < End(start, n, g) <= n
    && forall i :: start[g] <= i < End(start, n, g) ==> ks[i] == uniq[g]
  }

  /** uniq lists the distinct keys in order; group g of the sorted keys begins at start[g]. */
  ghost predicate Grouped(ks: seq<int>, n: nat, uniq: seq<int>, start: seq<int>) {
    && n <= |ks| && |uniq| == |start|
    && (n > 0 <==> uniq != [])
    && (uniq != [] ==> start[0] == 0)
    && (forall g :: 0 <= g < |uniq| ==> GroupAt(ks, n, uniq, start, g))
    && (forall g, l :: 0 <= g < l < |uniq| ==> uniq[g] < uniq[l])
  }

  method UniqueKeys(ks: seq<int>) returns (uniq: seq<int>, start: seq<int>)
    requires Ascending(ks)
    ensures Grouped(ks, |ks|, uniq, start)
  {
    uniq, start := [], [];
    var i := 0;
    while i < |ks|
      invariant 0 <= i <= |ks| && Grouped(ks, i, uniq, start)
    {
      if uniq == [] || ks[i] != uniq[|uniq| - 1] {
        NewGroup(ks, i, uniq, start);
        uniq, start := uniq + [ks[i]], start + [i];
      } else {
        SameGroup(ks, i, uniq, start);
      }
      i := i + 1;
    }
  }

  lemma NewGroup(ks: seq<int>, n: nat, uniq: seq<int>, start: seq<int>)
    requires Ascending(ks) && Grouped(ks, n, uniq, start) && n < |ks|
    requires uniq == [] || ks[n] != uniq[|uniq| - 1]
    ensures Grouped(ks, n + 1, uniq + [ks[n]], start + [n])
  {
    if uniq != [] {
      assert GroupAt(ks, n, uniq, start, |uniq| - 1);
      assert ks[n - 1] == uniq[|uniq| - 1];
    }
    var m, more, starts := n + 1, uniq + [ks[n]], start + [n];
    forall g | 0 <= g < |more| ensures GroupAt(ks, m, more, starts, g) {
      if g < |uniq| {
        assert GroupAt(ks, n, uniq, start, g);
        assert End(starts, m, g) == End(start, n, g);
      }
    }
  }

  lemma SameGroup(ks: seq<int>, n: nat, uniq: seq<int>, start: seq<int>)
    requires Grouped(ks, n, uniq, start) && n < |ks| && uniq != [] && ks[n] == uniq[|uniq| - 1]
    ensures Grouped(ks, n + 1, uniq, start)
  {
    var m := n + 1;
    forall g | 0 <= g < |uniq| ensures GroupAt(ks, m, uniq, start, g) {
      assert GroupAt(ks, n, uniq, start, g);
    }
  }

  /** The least entry of each group. */
  method ReduceMin(zs: seq<real>, ks: seq<int>, uniq: seq<int>, start: seq<int>) returns (mins: seq<real>)
    requires |zs| == |ks| && Grouped(ks, |ks|, uniq, start)
    ensures |mins| == |uniq| && forall g :: 0 <= g < |mins| ==> MinimumAt(zs, start, mins, g)
  {
    mins := [];
    var g := 0;
    while g < |start|
      invariant 0 <= g <= |start| && |mins| == g
      invariant forall l :: 0 <= l < g ==> MinimumAt(zs, start, mins, l)
    {
      assert GroupAt(ks, |ks|, uniq, start, g);
      var low := Least(zs, start[g], End(start, |ks|, g));
      KeptMinima(zs, start, mins, low);
      mins := mins + [low];
      g := g + 1;
    }
  }

  ghost predicate MinimumAt(zs: seq<real>, start: seq<int>, mins: seq<real>, g: int)
    requires 0 <= g < |mins| <= |start|
  {
    LeastOf(zs, start[g], End(start, |zs|, g), mins[g])
  }

  lemma KeptMinima(zs: seq<real>, start: seq<int>, mins: seq<real>, low: real)
    requires |mins| < |start| && forall g :: 0 <= g < |mins| ==> MinimumAt(zs, start, mins, g)
    ensures forall g :: 0 <= g < |mins| ==> MinimumAt(zs, start, mins + [low], g)
  {
    forall g | 0 <= g < |mins| ensures MinimumAt(zs, start, mins + [low], g) {
      assert MinimumAt(zs, start, mins, g);
    }
  }

  method Least(zs: seq<real>, lo: int, hi: int) returns (low: real)
    requires 0 <= lo < hi <= |zs|
    ensures LeastOf(zs, lo, hi, low)
  {
    low := zs[lo];
    var i := lo + 1;
    while i < hi
      invariant lo < i <= hi && LeastOf(zs, lo, i, low)
    {
      if zs[i] < low { low := zs[i]; }
      i := i + 1;
    }
  }

  ghost predicate LeastOf(zs: seq<real>, lo: int, hi: int, m: real) {
    && 0 <= lo < hi <= |zs|
    && (forall i :: lo <= i < hi ==> m <= zs[i])
    && exists i :: lo <= i < hi && zs[i] == m
  }

  /** Binary search for the position of a key that is present. */
  method SearchSorted(uniq: seq<int>, key: int) returns (g: nat)
    requires (forall g, l :: 0 <= g < l < |uniq| ==> uniq[g] < uniq[l]) && Occurs(uniq, key)
    ensures g < |uniq| && uniq[g] == key
  {
    var lo, hi := 0, |uniq|;
    while lo < hi
      invariant 0 <= lo <= hi <= |uniq|
      invariant forall l :: 0 <= l < lo ==> uniq[l] < key
      invariant forall l :: hi <= l < |uniq| ==> uniq[l] >= key
    {
      var mid := (lo + hi) / 2;
      if uniq[mid] < key { lo := mid + 1; } else { hi := mid; }
    }
    g := lo;
    var l :| 0 <= l < |uniq| && uniq[l] == key;
    assert lo <= l && uniq[lo] >= key;
  }

  /** The group of a sorted position. */
  lemma GroupOf(ks: seq<int>, uniq: seq<int>, start: seq<int>, i: int) returns (g: nat)
    requires Grouped(ks, |ks|, uniq, start) && 0 <= i < |ks|
    ensures g < |uniq| && start[g] <= i < End(start, |ks|, g) && ks[i] == uniq[g]
  {
    g := |start| - 1;
    while i < start[g]
      invariant 0 <= g < |start| && i < End(start, |ks|, g)
      decreases g
    {
      g := g - 1;
    }
    assert GroupAt(ks, |ks|, uniq, start, g);
  }

  /** A lower bound that is attained is the lowest height. */
  lemma LowUnique(keys: seq<int>, z: seq<real>, key: int, m: real)
    requires |keys| == |z|
    requires forall k :: 0 <= k < |z| && keys[k] == key ==> m <= z[k]
    requires exists k :: 0 <= k < |z| && keys[k] == key && z[k] == m
    ensures Low(keys, z, |z|, key) == Fin(m)
  {
    LowIsLowest(keys, z, |z|, key);
    var k :| 0 <= k < |z| && keys[k] == key && z[k] == m;
    assert Le(Low(keys, z, |z|, key), Fin(z[k]));
  }

  /** The keys and heights read in sorted order. */
  ghost predicate Reordered(keys: seq<int>, z: seq<real>, order: seq<int>, ks: seq<int>, zs: seq<real>) {
    && |keys| == |z| && Sorts(order, keys)
    && |ks| == |zs| == |order|
    && forall i :: 0 <= i < |order| ==> ks[i] == keys[order[i]] && zs[i] == z[order[i]]
  }

  /** Every point is at some sorted position, in the group of its key. */
  lemma PlaceOf(keys: seq<int>, z: seq<real>, order: seq<int>, ks: seq<int>, zs: seq<real>,
                uniq: seq<int>, start: seq<int>, k: int) returns (g: nat, i: int)
    requires Reordered(keys, z, order, ks, zs) && Grouped(ks, |ks|, uniq, start) && 0 <= k < |z|
    ensures g < |uniq| && uniq[g] == keys[k] && start[g] <= i < End(start, |ks|, g)
    ensures 0 <= i < |zs| && zs[i] == z[k]
  {
    assert Occurs(order, k);
    i :| 0 <= i < |order| && order[i] == k;
    g := GroupOf(ks, uniq, start, i);
  }

  lemma GroupBound(keys: seq<int>, z: seq<real>, order: seq<int>, ks: seq<int>, zs: seq<real>,
                   uniq: seq<int>, start: seq<int>, g: nat, m: real, k: int)
    requires Reordered(keys, z, order, ks, zs) && Grouped(ks, |ks|, uniq, start)
    requires g < |uniq| && LeastOf(zs, start[g], End(start, |ks|, g), m)
    requires 0 <= k < |z| && keys[k] == uniq[g]
    ensures m <= z[k]
  {
    var l, i := PlaceOf(keys, z, order, ks, zs, uniq, start, k);
    assert l == g;
  }

  /** The group minimum in sorted order is the lowest height of the key. */
  lemma GroupMinimum(keys: seq<int>, z: seq<real>, order: seq<int>, ks: seq<int>, zs: seq<real>,
                     uniq: seq<int>, start: seq<int>, g: nat, m: real)
    requires Reordered(keys, z, order, ks, zs) && Grouped(ks, |ks|, uniq, start)
    requires g < |uniq| && LeastOf(zs, start[g], End(start, |ks|, g), m)
    ensures Low(keys, z, |z|, uniq[g]) == Fin(m)
  {
    forall k | 0 <= k < |z| && keys[k] == uniq[g] ensures m <= z[k] {
      GroupBound(keys, z, order, ks, zs, uniq, start, g, m, k);
    }
    var i :| start[g] <= i < End(start, |ks|, g) && zs[i] == m;
    assert GroupAt(ks, |ks|, uniq, start, g);
    assert ks[i] == uniq[g] && keys[order[i]] == uniq[g] && z[order[i]] == m;
    LowUnique(keys, z, uniq[g], m);
  }

  /** The points among the first n that rise above the lowest point with their label, in order. */
  function Kept<T(==)>(pts: seq<Point>, labels: seq<T>, z: seq<real>, height: real, n: nat): seq<Point>
    requires n <= |pts| == |labels| == |z|
  {
    if n == 0 then []
    else Kept(pts, labels, z, height, n - 1) + (if Rises(labels, z, height, n - 1) then [pts[n - 1]] else [])
  }

  function CellsOf(pts: seq<Point>, reso: real): seq<Cell>
    requires reso != 0.0
  {
    seq(|pts|, k requires 0 <= k < |pts| => CellOf(pts[k], reso))
  }

  function Zs(pts: seq<Point>): seq<real> { seq(|pts|, k requires 0 <= k < |pts| => pts[k].z) }

  /** In order, exactly the points that rise above the lowest point with their key. */
  method SegmentObstacles(pts: seq<Point>, reso: real, height: real, order: seq<int>) returns (out: seq<Point>)
    requires reso != 0.0 && Sorts(order, Keys(CellsOf(pts, reso)))
    ensures out == Kept(pts, Keys(CellsOf(pts, reso)), Zs(pts), height, |pts|)
  {
    if pts == [] { return []; }
    var keys, z := Keys(CellsOf(pts, reso)), Zs(pts);
    out := SegmentByKey(pts, keys, z, height, order);
  }

  method SegmentByKey(pts: seq<Point>, keys: seq<int>, z: seq<real>, height: real, order: seq<int>) returns (out: seq<Point>)
    requires |pts| == |keys| == |z| && Sorts(order, keys)
    ensures out == Kept(pts, keys, z, height, |pts|)
  {
    var n := |pts|;
    var ks := seq(n, i requires 0 <= i < n => keys[order[i]]);
    var zs := seq(n, i requires 0 <= i < n => z[order[i]]);
    var uniq, start := UniqueKeys(ks);
    var mins := ReduceMin(zs, ks, uniq, start);
    var lows := GroundPerPoint(keys, z, order, ks, zs, uniq, start, mins);
    out := [];
    var k := 0;
    while k < n
      invariant 0 <= k <= n && out == Kept(pts, keys, z, height, k)
    {
      if z[k] > lows[k] + height { out := out + [pts[k]]; }
      k := k + 1;
    }
  }

  /** The group minima looked up for every point. */
  method GroundPerPoint(keys: seq<int>, z: seq<real>, ghost order: seq<int>, ks: seq<int>, ghost zs: seq<real>,
                        uniq: seq<int>, start: seq<int>, mins: seq<real>) returns (lows: seq<real>)
    requires Reordered(keys, z, order, ks, zs) && Grouped(ks, |ks|, uniq, start) && |mins| == |uniq|
    requires forall g :: 0 <= g < |mins| ==> MinimumAt(zs, start, mins, g)
    ensures |lows| == |z| && forall k :: 0 <= k < |z| ==> Low(keys, z, |z|, keys[k]) == Fin(lows[k])
  {
    lows := [];
    var k := 0;
    while k < |z|
      invariant 0 <= k <= |z| && |lows| == k
      invariant forall l :: 0 <= l < k ==> Low(keys, z, |z|, keys[l]) == Fin(lows[l])
    {
      ghost var _, _ := PlaceOf(keys, z, order, ks, zs, uniq, start, k);
      var g := SearchSorted(uniq, keys[k]);
      assert MinimumAt(zs, start, mins, g);
      GroupMinimum(keys, z, order, ks, zs, uniq, start, g, mins[g]);
      lows := lows + [mins[g]];
      k := k + 1;
    }
  }

  /** For a cloud narrower in y than the stride, the filter keeps exactly the points that rise above
      the lowest point of their own cell. */
  lemma NarrowCloudIsPerCell(pts: seq<Point>, reso: real, height: real)
    requires reso != 0.0
    requires forall i, j :: 0 <= i < |pts| && 0 <= j < |pts| ==> CellOf(pts[i], reso).1 - CellOf(pts[j], reso).1 < STRIDE
    ensures Kept(pts, Keys(CellsOf(pts, reso)), Zs(pts), height, |pts|) == Kept(pts, CellsOf(pts, reso), Zs(pts), height, |pts|)
  {
    var cells := CellsOf(pts, reso);
    NarrowIsInjective(cells);
    KeyedIsPerCellExactly(cells, height);
    SameKept(pts, Keys(cells), cells, Zs(pts), height, |pts|);
  }

  lemma {:induction false} SameKept<T, U>(pts: seq<Point>, a: seq<T>, b: seq<U>, z: seq<real>, height: real, n: nat)
    requires n <= |pts| == |a| == |b| == |z|
    requires forall k :: 0 <= k < |z| ==> (Rises(a, z, height, k) <==> Rises(b, z, height, k))
    ensures Kept(pts, a, z, height, n) == Kept(pts, b, z, height, n)
  {
    if n > 0 { SameKept(pts, a, b, z, height, n - 1); }
  }

  // ---- What is kept, in terms of the points ----

  lemma RisesIsExact<T>(labels: seq<T>, z: seq<real>, height: real, k: int)
    requires 0 <= k < |labels| == |z|
    ensures Rises(labels, z, height, k) <==> exists j :: 0 <= j < |z| && labels[j] == labels[k] && z[k] > z[j] + height
  {
    LowIsLowest(labels, z, |z|, labels[k]);
    assert Le(Low(labels, z, |z|, labels[k]), Fin(z[k]));
    if j :| 0 <= j < |z| && labels[j] == labels[k] && z[k] > z[j] + height {
      assert Le(Low(labels, z, |z|, labels[k]), Fin(z[j]));
    }
  }

  lemma {:induction false} KeptIsMarked<T>(pts: seq<Point>, labels: seq<T>, z: seq<real>, height: real, keep: seq<bool>, n: nat)
    requires n <= |pts| == |labels| == |z| == |keep|
    requires forall k :: 0 <= k < |z| ==> keep[k] == Rises(labels, z, height, k)
    ensures Kept(pts, labels, z, height, n) == Marked(pts, keep, n)
  {
    if n > 0 { KeptIsMarked(pts, labels, z, height, keep, n - 1); }
  }

  lemma KeptIsPicked<T>(pts: seq<Point>, labels: seq<T>, z: seq<real>, height: real) returns (idx: seq<int>)
    requires |pts| == |labels| == |z|
    ensures Picked(pts, idx, |pts|, Kept(pts, labels, z, height, |pts|))
    ensures forall k :: 0 <= k < |pts| ==> (k in idx <==> Rises(labels, z, height, k))
  {
    var keep := seq(|z|, k requires 0 <= k < |z| => Rises(labels, z, height, k));
    KeptIsMarked(pts, labels, z, height, keep, |pts|);
    idx := MarkedIsPicked(pts, keep, |pts|);
  }

  predicate InBox(p: Point, reso: real, c: Cell) { InStep(p.x, reso, c.0) && InStep(p.y, reso, c.1) }

  lemma CellIsBox(p: Point, reso: real, c: Cell)
    requires reso != 0.0
    ensures CellOf(p, reso) == c <==> InBox(p, reso, c)
  {
    FloorOfQuotient(p.x, reso, c.0);
    FloorOfQuotient(p.y, reso, c.1);
  }

  /** The boxes of the two points are packed into the same key. */
  ghost predicate SharesKey(p: Point, q: Point, reso: real) {
    exists a: Cell, b: Cell :: InBox(p, reso, a) && InBox(q, reso, b) && (a.0 - b.0) * 1_000_003 == b.1 - a.1
  }

  ghost predicate SharesBox(p: Point, q: Point, reso: real) {
    exists a :: InBox(p, reso, a) && InBox(q, reso, a)
  }

  lemma KeyIsShared(p: Point, q: Point, reso: real)
    requires reso != 0.0
    ensures Key(CellOf(p, reso)) == Key(CellOf(q, reso)) <==> SharesKey(p, q, reso)
    ensures CellOf(p, reso) == CellOf(q, reso) <==> SharesBox(p, q, reso)
  {
    var a, b := CellOf(p, reso), CellOf(q, reso);
    CellIsBox(p, reso, a);
    CellIsBox(q, reso, b);
    CellIsBox(q, reso, a);
    if SharesKey(p, q, reso) {
      var d: Cell, e: Cell :| InBox(p, reso, d) && InBox(q, reso, e) && (d.0 - e.0) * 1_000_003 == e.1 - d.1;
      CellIsBox(p, reso, d);
      CellIsBox(q, reso, e);
    }
    if SharesBox(p, q, reso) {
      var d :| InBox(p, reso, d) && InBox(q, reso, d);
      CellIsBox(p, reso, d);
      CellIsBox(q, reso, d);
    }
  }

  ghost predicate StandsOn(pts: seq<Point>, height: real, k: int, j: int)
    requires 0 <= k < |pts| && 0 <= j < |pts|
  {
    pts[k].z > pts[j].z + height
  }

  /** The filter keeps, in order, exactly the points more than height above some point of their key. */
  lemma KeptByKey(pts: seq<Point>, reso: real, height: real) returns (idx: seq<int>)
    requires reso != 0.0
    ensures Picked(pts, idx, |pts|, Kept(pts, Keys(CellsOf(pts, reso)), Zs(pts), height, |pts|))
    ensures forall k :: 0 <= k < |pts| ==>
              (k in idx <==> exists j :: 0 <= j < |pts| && SharesKey(pts[k], pts[j], reso) && StandsOn(pts, height, k, j))
  {
    var keys, z := Keys(CellsOf(pts, reso)), Zs(pts);
    idx := KeptIsPicked(pts, keys, z, height);
    forall k | 0 <= k < |pts|
      ensures k in idx <==> exists j :: 0 <= j < |pts| && SharesKey(pts[k], pts[j], reso) && StandsOn(pts, height, k, j)
    {
      RisesIsExact(keys, z, height, k);
      forall j | 0 <= j < |pts| ensures keys[j] == keys[k] <==> SharesKey(pts[k], pts[j], reso) {
        KeyIsShared(pts[k], pts[j], reso);
      }
    }
  }

  /** For a cloud narrower in y than the stride: more than height above some point of their own box. */
  lemma KeptByBox(pts: seq<Point>, reso: real, height: real) returns (idx: seq<int>)
    requires reso != 0.0
    requires forall i, j :: 0 <= i < |pts| && 0 <= j < |pts| ==> CellOf(pts[i], reso).1 - CellOf(pts[j], reso).1 < STRIDE
    ensures Picked(pts, idx, |pts|, Kept(pts, Keys(CellsOf(pts, reso)), Zs(pts), height, |pts|))
    ensures forall k :: 0 <= k < |pts| ==>
              (k in idx <==> exists j :: 0 <= j < |pts| && SharesBox(pts[k], pts[j], reso) && StandsOn(pts, height, k, j))
  {
    var cells, z := CellsOf(pts, reso), Zs(pts);
    NarrowCloudIsPerCell(pts, reso, height);
    idx := KeptIsPicked(pts, cells, z, height);
    forall k | 0 <= k < |pts|
      ensures k in idx <==> exists j :: 0 <= j < |pts| && SharesBox(pts[k], pts[j], reso) && StandsOn(pts, height, k, j)
    {
      RisesIsExact(cells, z, height, k);
      forall j | 0 <= j < |pts| ensures cells[j] == cells[k] <==> SharesBox(pts[k], pts[j], reso) {
        KeyIsShared(pts[k], pts[j], reso);
      }
    }
  }
}
