/** Points, coordinates and squared Euclidean distance over the reals. */
module Points {
  import opened Reals

  type Point = seq<real>

  /** Every point has the same number of coordinates. */
  ghost predicate Uniform(points: seq<Point>, dim: nat) {
    forall p :: 0 <= p < |points| ==> |points[p]| == dim
  }

  /** Coordinate f of the point in slot k of the index table v. */
  function At(points: seq<Point>, v: seq<nat>, k: int, f: nat): real {
    if 0 <= k < |v| && v[k] < |points| && f < |points[v[k]]| then points[v[k]][f] else 0.0
  }

  ghost predicate InTable(points: seq<Point>, v: seq<nat>) {
    forall k :: 0 <= k < |v| ==> v[k] < |points|
  }

  /** x is the smallest value of coordinate f over slots lo..hi. */
  ghost predicate IsMin(x: real, points: seq<Point>, v: seq<nat>, lo: int, hi: int, f: nat) {
    && (exists k :: lo <= k < hi && At(points, v, k, f) == x)
    && (forall k :: lo <= k < hi ==> x <= At(points, v, k, f))
  }

  ghost predicate IsMax(x: real, points: seq<Point>, v: seq<nat>, lo: int, hi: int, f: nat) {
    && (exists k :: lo <= k < hi && At(points, v, k, f) == x)
    && (forall k :: lo <= k < hi ==> At(points, v, k, f) <= x)
  }

  /** The extent of a range joined from two adjoining ones. */
  lemma JoinMin(x: real, y: real, points: seq<Point>, v: seq<nat>, lo: int, mid: int, hi: int, f: nat)
    requires IsMin(x, points, v, lo, mid, f) && IsMin(y, points, v, mid, hi, f) && lo <= mid <= hi
    ensures IsMin(if y < x then y else x, points, v, lo, hi, f)
  {
  }

  lemma JoinMax(x: real, y: real, points: seq<Point>, v: seq<nat>, lo: int, mid: int, hi: int, f: nat)
    requires IsMax(x, points, v, lo, mid, f) && IsMax(y, points, v, mid, hi, f) && lo <= mid <= hi
    ensures IsMax(if x < y then y else x, points, v, lo, hi, f)
  {
  }

  /** b is a with the slots lo..hi permuted among themselves. */
  ghost predicate Rearranged(a: seq<nat>, b: seq<nat>, lo: int, hi: int) {
    && |a| == |b|
    && (forall k :: 0 <= k < |a| && !(lo <= k < hi) ==> a[k] == b[k])
    && multiset(a) == multiset(b)
  }

  /** An element of a sequence cut in three is counted once in each part. */
  lemma CountInThree(s: seq<nat>, lo: nat, hi: nat, c: nat)
    requires lo <= hi <= |s|
    ensures multiset(s)[c] == multiset(s[..lo])[c] + multiset(s[lo..hi])[c] + multiset(s[hi..])[c]
  {
    assert s == s[..lo] + s[lo..hi] + s[hi..];
    assert multiset(s) == multiset(s[..lo]) + multiset(s[lo..hi]) + multiset(s[hi..]);
  }

  /** What a slot of the permuted range holds was somewhere in that range. */
  lemma RearrangedFrom(a: seq<nat>, b: seq<nat>, lo: nat, hi: nat, k: nat) returns (j: nat)
    requires Rearranged(a, b, lo, hi) && lo <= k < hi <= |a|
    ensures lo <= j < hi && a[j] == b[k]
  {
    CountInThree(a, lo, hi, b[k]);
    CountInThree(b, lo, hi, b[k]);
    assert a[..lo] == b[..lo] && a[hi..] == b[hi..];
    assert b[lo..hi][k - lo] == b[k];
    var y := a[lo..hi];
    assert b[k] in multiset(y);
    var i :| 0 <= i < |y| && y[i] == b[k];
    j := lo + i;
  }

  /** Sum of the first n entries. */
  function Sum(d: seq<real>, n: nat): real
    requires n <= |d|
  {
    if n == 0 then 0.0 else Sum(d, n - 1) + d[n - 1]
  }

  function DistSqUpTo(a: Point, b: Point, n: nat): (r: real)
    requires n <= |a| && n <= |b|
    ensures r >= 0.0
  {
    if n == 0 then 0.0 else DistSqUpTo(a, b, n - 1) + Sq(a[n - 1] - b[n - 1])
  }

  function DistSq(a: Point, b: Point): (r: real)
    requires |a| == |b|
    ensures r >= 0.0
  {
    DistSqUpTo(a, b, |a|)
  }

  lemma {:induction false} DistSqUpToIsSum(a: Point, b: Point, d: seq<real>, n: nat)
    requires |a| == |b| == |d| && n <= |a| && forall i :: 0 <= i < |a| ==> d[i] == Sq(a[i] - b[i])
    ensures DistSqUpTo(a, b, n) == Sum(d, n)
  {
    if n > 0 { DistSqUpToIsSum(a, b, d, n - 1); }
  }

  /** The squared distance is the sum of the squared coordinate differences, each counted once. */
  lemma DistSqIsSum(a: Point, b: Point, d: seq<real>)
    requires |a| == |b| == |d| && forall i :: 0 <= i < |a| ==> d[i] == Sq(a[i] - b[i])
    ensures DistSq(a, b) == Sum(d, |d|)
  {
    DistSqUpToIsSum(a, b, d, |a|);
  }

  /** In space: Pythagoras in three coordinates. */
  lemma DistSqInSpace(x: real, y: real, z: real, u: real, v: real, w: real)
    ensures DistSq([x, y, z], [u, v, w]) == (x - u) * (x - u) + (y - v) * (y - v) + (z - w) * (z - w)
  {
    var a, b := [x, y, z], [u, v, w];
    assert DistSqUpTo(a, b, 0) == 0.0;
    assert DistSqUpTo(a, b, 1) == Sq(x - u);
    assert DistSqUpTo(a, b, 2) == Sq(x - u) + Sq(y - v);
    assert DistSqUpTo(a, b, 3) == Sq(x - u) + Sq(y - v) + Sq(z - w);
  }

  /** Per-coordinate lower bounds add up to a lower bound of the distance. */
  lemma {:induction false} SumBounds(d: seq<real>, a: Point, b: Point, n: nat)
    requires n <= |d| && n <= |a| && n <= |b|
    requires forall i :: 0 <= i < n ==> d[i] <= Sq(a[i] - b[i])
    ensures Sum(d, n) <= DistSqUpTo(a, b, n)
  {
    if n > 0 { SumBounds(d, a, b, n - 1); }
  }

  /** Changing one entry changes the sum by the difference. */
  lemma {:induction false} SumUpdate(d: seq<real>, n: nat, i: nat, x: real)
    requires n <= |d| && i < |d|
    ensures Sum(d[i := x], n) == if i < n then Sum(d, n) - d[i] + x else Sum(d, n)
  {
    if n > 0 { SumUpdate(d, n - 1, i, x); }
  }

  /** Moving the reference farther from a on the same side only increases the square. */
  lemma SqMonotone(a: real, near: real, far: real)
    requires a <= near <= far || far <= near <= a
    ensures Sq(a - near) <= Sq(a - far)
  {
    var u, w := if a <= near then near - a else a - near, if a <= near then far - near else near - far;
    assert u * w >= 0.0 && w * w >= 0.0;
    assert Sq(a - near) == u * u;
    assert Sq(a - far) == (u + w) * (u + w) == u * u + 2.0 * (u * w) + w * w;
  }
}
