/** The pruned nearest-neighbour search over a built k-d tree, and its agreement with a
    full sort of all distances. */
module KdSearch {
  import opened Nearest
  import opened KnnResults
  import opened Points
  import opened Reals
  import opened KdTrees

  /** The distance of every point to the query. */
  function Distances(vec: Point, points: seq<Point>): (ds: seq<real>)
    requires forall p :: 0 <= p < |points| ==> |points[p]| == |vec|
    ensures |ds| == |points| && forall x :: 0 <= x < |ds| ==> ds[x] == DistSq(vec, points[x])
  {
    seq(|points|, x requires 0 <= x < |points| => DistSq(vec, points[x]))
  }

  function Scaled(ds: seq<real>, factor: real): (s: seq<real>)
    ensures |s| == |ds| && forall x :: 0 <= x < |s| ==> s[x] == ds[x] * factor
  {
    seq(|ds|, x requires 0 <= x < |ds| => ds[x] * factor)
  }

  lemma ScaledScales(ds: seq<real>, factor: real)
    requires factor >= 1.0 && forall x :: 0 <= x < |ds| ==> ds[x] >= 0.0
    ensures Scales(Scaled(ds, factor), ds)
  {
    forall x | 0 <= x < |ds| ensures ds[x] * factor >= ds[x] {
      TimesAtLeast(ds[x], factor);
    }
  }

  lemma TimesAtLeast(d: real, factor: real)
    requires d >= 0.0 && factor >= 1.0
    ensures d * factor >= d
  {
    assert d * (factor - 1.0) >= 0.0;
  }

  /** The point numbers in the slots lo..hi. */
  ghost function Slots(v: seq<nat>, lo: nat, hi: nat): set<nat> {
    set k | lo <= k < hi && k < |v| :: v[k]
  }

  ghost predicate Injective(v: seq<nat>) {
    forall i, j :: 0 <= i < j < |v| ==> v[i] != v[j]
  }

  lemma {:induction false} IdentityCounts(n: nat, c: nat)
    ensures multiset(Identity(n))[c] == if c < n then 1 else 0
  {
    if n > 0 {
      IdentityCounts(n - 1, c);
      assert Identity(n) == Identity(n - 1) + [n - 1];
    }
  }

  /** A permutation of 0..n-1 names every point exactly once. */
  lemma PermutationCovers(v: seq<nat>, n: nat)
    requires multiset(v) == multiset(Identity(n))
    ensures |v| == n && Injective(v) && Slots(v, 0, n) == Below(n)
  {
    assert |v| == |multiset(v)| == |Identity(n)|;
    forall i, j | 0 <= i < j < |v| ensures v[i] != v[j] {
      CountInThree(v, j, j + 1, v[j]);
      assert v[j..j + 1] == [v[j]];
      if v[i] == v[j] {
        assert v[..j][i] == v[j];
        assert multiset(v[..j])[v[j]] >= 1;
        IdentityCounts(n, v[j]);
      }
    }
    forall x: nat ensures x in Slots(v, 0, n) <==> x < n {
      IdentityCounts(n, x);
      assert x in v <==> x in multiset(v);
    }
  }

  /** Every entry of dists bounds from below what its coordinate contributes to the
      distance of each point in the range. */
  ghost predicate Bounds(dists: seq<real>, vec: Point, points: seq<Point>, v: seq<nat>, lo: nat, hi: nat) {
    && |dists| == |vec|
    && (forall k, i :: lo <= k < hi && 0 <= i < |vec| ==> dists[i] <= Sq(vec[i] - At(points, v, k, i)))
  }

  /** The sum of the bounds is a lower bound of each distance in the range. */
  lemma BoundsSum(dists: seq<real>, vec: Point, points: seq<Point>, v: seq<nat>, lo: nat, hi: nat, k: nat)
    requires Bounds(dists, vec, points, v, lo, hi) && lo <= k < hi <= |v|
    requires v[k] < |points| && |points[v[k]]| == |vec|
    ensures Sum(dists, |vec|) <= DistSq(vec, points[v[k]])
  {
    forall i | 0 <= i < |vec| ensures dists[i] <= Sq(vec[i] - points[v[k]][i]) {
      assert At(points, v, k, i) == points[v[k]][i];
    }
    SumBounds(dists, vec, points[v[k]], |vec|);
  }

  /** The child on the other side of the query's half, and the recorded extreme facing it. */
  ghost predicate FarSide(node: Node, val: real, far: Node, plane: real) {
    && node.Inner?
    && if val - node.divlow + (val - node.divhigh) < 0.0
       then far == node.child2 && plane == node.divhigh
       else far == node.child1 && plane == node.divlow
  }

  /** On the far side the coordinate contributes at least the squared gap to that extreme. */
  lemma FarSideBounds(d: seq<real>, vec: Point, points: seq<Point>, v: seq<nat>, dim: nat, leafMax: nat, node: Node,
                      far: Node, plane: real, cutDist: real)
    requires node.Inner? && WellFormed(node, points, v, dim, leafMax) && |vec| == dim
    requires Bounds(d, vec, points, v, Lo(node), Hi(node))
    requires FarSide(node, vec[node.divfeat], far, plane) && cutDist == Sq(vec[node.divfeat] - plane)
    ensures Bounds(d[node.divfeat := cutDist], vec, points, v, Lo(far), Hi(far))
  {
    var f := node.divfeat;
    RangeNonEmpty(node.child1, points, v, dim, leafMax);
    RangeNonEmpty(node.child2, points, v, dim, leafMax);
    forall k | Lo(far) <= k < Hi(far) ensures cutDist <= Sq(vec[f] - At(points, v, k, f)) {
      SqMonotone(vec[f], plane, At(points, v, k, f));
    }
  }

  /** A pruned range loses as a whole: its scaled distances exceed the value to beat. */
  lemma PrunedLoses(dists: seq<real>, vec: Point, points: seq<Point>, v: seq<nat>, lo: nat, hi: nat,
                    ds: seq<real>, factor: real, mindistsq: real, worst: real)
    requires Bounds(dists, vec, points, v, lo, hi) && hi <= |v| && InTable(points, v) && factor >= 1.0
    requires Uniform(points, |vec|) && ds == Distances(vec, points)
    requires mindistsq == Sum(dists, |vec|) && mindistsq * factor > worst
    ensures forall y :: y in Slots(v, lo, hi) && y < |ds| ==> Scaled(ds, factor)[y] >= worst
  {
    forall k | lo <= k < hi ensures Scaled(ds, factor)[v[k]] >= worst {
      BoundsSum(dists, vec, points, v, lo, hi, k);
      ScaledAtLeast(ds, factor, v[k], mindistsq);
    }
  }

  lemma ScaledAtLeast(ds: seq<real>, factor: real, x: nat, m: real)
    requires x < |ds| && m <= ds[x] && factor >= 1.0
    ensures m * factor <= Scaled(ds, factor)[x]
  {
    assert (ds[x] - m) * factor >= 0.0;
  }

  lemma SlotsSplit(v: seq<nat>, lo: nat, mid: nat, hi: nat)
    requires lo <= mid <= hi <= |v|
    ensures Slots(v, lo, hi) == Slots(v, lo, mid) + Slots(v, mid, hi)
    ensures Injective(v) ==> Slots(v, lo, mid) !! Slots(v, mid, hi)
  {
  }

  method EvalMetric(a: Point, b: Point) returns (result: real)
    requires |a| == |b|
    ensures result == DistSq(a, b)
  {
    result := 0.0;
    for i := 0 to |a|
      invariant result == DistSqUpTo(a, b, i)
    {
      var diff := a[i] - b[i];
      result := result + diff * diff;
    }
  }

  /** What a search may rely on: a query of the right dimension over an intact index table. */
  ghost predicate Ready(t: KdTree, rs: KnnResultSet, vec: Point, v: seq<nat>, ds: seq<real>, scaled: seq<real>)
    reads t.vAcc
  {
    && t.Table() && v == t.vAcc[..] && Injective(v)
    && |vec| == t.dim && ds == Distances(vec, t.points) && Scales(scaled, ds)
    && t.vAcc != rs.indices
  }

  /** The result set answers the query for the points seen so far. */
  ghost predicate Answered(t: KdTree, rs: KnnResultSet, vec: Point, v: seq<nat>, ds: seq<real>, scaled: seq<real>, seen: set<nat>)
    reads t.vAcc, rs, rs.dists, rs.indices
  {
    && Ready(t, rs, vec, v, ds, scaled)
    && rs.Valid() && Answers(rs.Contents(), rs.capacity, rs.bound, scaled, ds, seen)
  }

  /** Offers one point of a leaf; worstDist may be stale, never too small. */
  method VisitPoint(t: KdTree, rs: KnnResultSet, vec: Point, accessor: nat, worstDist: real,
                    ghost v: seq<nat>, ghost ds: seq<real>, ghost scaled: seq<real>, ghost seen: set<nat>)
    requires Answered(t, rs, vec, v, ds, scaled, seen) && accessor < |t.points| && accessor !in seen
    requires Worst(rs.Contents(), rs.capacity, rs.bound) <= worstDist <= rs.bound
    modifies rs`count, rs.dists, rs.indices
    ensures Answered(t, rs, vec, v, ds, scaled, seen + {accessor})
    ensures Worst(rs.Contents(), rs.capacity, rs.bound) <= worstDist
  {
    var dist := EvalMetric(vec, t.points[accessor]);
    if dist < worstDist {
      OfferAnswers(rs.Contents(), rs.capacity, rs.bound, scaled, ds, seen, accessor);
      rs.AddPoint(dist, accessor);
    } else {
      PassOver(rs.Contents(), rs.capacity, rs.bound, scaled, ds, seen, {accessor});
    }
  }

  method ScanLeaf(t: KdTree, rs: KnnResultSet, vec: Point, left: nat, right: nat,
                  ghost v: seq<nat>, ghost ds: seq<real>, ghost scaled: seq<real>, ghost seen: set<nat>)
    requires Answered(t, rs, vec, v, ds, scaled, seen) && left <= right <= |v|
    requires seen !! Slots(v, left, right)
    modifies rs`count, rs.dists, rs.indices
    ensures Answered(t, rs, vec, v, ds, scaled, seen + Slots(v, left, right))
  {
    var worstDist := rs.WorstDist();
    ghost var done := seen;
    assert seen + Slots(v, left, left) == seen;
    for i := left to right
      invariant Answered(t, rs, vec, v, ds, scaled, done) && done == seen + Slots(v, left, i)
      invariant Worst(rs.Contents(), rs.capacity, rs.bound) <= worstDist <= rs.bound
    {
      NextSlot(v, left, i, right);
      VisitPoint(t, rs, vec, t.vAcc[i], worstDist, v, ds, scaled, done);
      done := done + {v[i]};
    }
  }

  lemma NextSlot(v: seq<nat>, left: nat, i: nat, right: nat)
    requires left <= i < right <= |v| && Injective(v)
    ensures Slots(v, left, i + 1) == Slots(v, left, i) + {v[i]}
    ensures v[i] !in Slots(v, left, i) && v[i] in Slots(v, left, right)
  {
  }

  /** Which child to search first, and the extreme of the other one that faces the query. */
  method ChooseChild(node: Node, val: real) returns (best: Node, far: Node, plane: real)
    requires node.Inner?
    ensures (best == node.child1 && far == node.child2) || (best == node.child2 && far == node.child1)
    ensures FarSide(node, val, far, plane)
  {
    var diff1, diff2 := val - node.divlow, val - node.divhigh;
    if diff1 + diff2 < 0.0 {
      best, far, plane := node.child1, node.child2, node.divhigh;
    } else {
      best, far, plane := node.child2, node.child1, node.divlow;
    }
  }

  /** Everything the two recursive calls at an inner node need: the child on the query's side, the
      other one, and how much the other one's lower bound rises in the cut coordinate. */
  method Branch(node: Node, vec: Point, ghost points: seq<Point>, ghost v: seq<nat>, ghost leafMax: nat,
                ghost d: seq<real>, ghost seen: set<nat>) returns (best: Node, far: Node, cutDist: real)
    requires node.Inner? && WellFormed(node, points, v, |vec|, leafMax) && Injective(v)
    requires Bounds(d, vec, points, v, Lo(node), Hi(node)) && seen !! Slots(v, Lo(node), Hi(node))
    ensures (best == node.child1 && far == node.child2) || (best == node.child2 && far == node.child1)
    ensures WellFormed(best, points, v, |vec|, leafMax) && WellFormed(far, points, v, |vec|, leafMax)
    ensures Bounds(d, vec, points, v, Lo(best), Hi(best))
    ensures Bounds(d[node.divfeat := cutDist], vec, points, v, Lo(far), Hi(far))
    ensures Sum(d[node.divfeat := cutDist], |vec|) == Sum(d, |vec|) + cutDist - d[node.divfeat]
    ensures seen !! Slots(v, Lo(best), Hi(best))
    ensures seen + Slots(v, Lo(best), Hi(best)) !! Slots(v, Lo(far), Hi(far))
    ensures seen + Slots(v, Lo(best), Hi(best)) + Slots(v, Lo(far), Hi(far)) == seen + Slots(v, Lo(node), Hi(node))
  {
    var val := vec[node.divfeat];
    var plane;
    best, far, plane := ChooseChild(node, val);
    cutDist := Sq(val - plane);
    Descend(node, points, v, vec, leafMax, d, best, far, plane, cutDist, seen);
  }

  /** Visits a subtree: its points join the ones answered for, and the bounds are left as found. */
  method SearchLevel(t: KdTree, rs: KnnResultSet, vec: Point, node: Node, mindistsq: real, dists: array<real>, epsError: real,
                     ghost v: seq<nat>, ghost ds: seq<real>, ghost seen: set<nat>)
    requires Answered(t, rs, vec, v, ds, Scaled(ds, epsError), seen) && epsError >= 1.0
    requires WellFormed(node, t.points, v, t.dim, t.leafMax)
    requires dists.Length == t.dim && dists != rs.dists
    requires mindistsq == Sum(dists[..], t.dim) && Bounds(dists[..], vec, t.points, v, Lo(node), Hi(node))
    requires seen !! Slots(v, Lo(node), Hi(node))
    modifies rs`count, rs.dists, rs.indices, dists
    ensures dists[..] == old(dists[..])
    ensures Answered(t, rs, vec, v, ds, Scaled(ds, epsError), seen + Slots(v, Lo(node), Hi(node)))
    decreases node, 1
  {
    match node
    case Leaf(left, right) =>
      ScanLeaf(t, rs, vec, left, right, v, ds, Scaled(ds, epsError), seen);
    case Inner(_, _, _, _, _) =>
      SearchBoth(t, rs, vec, node, mindistsq, dists, epsError, v, ds, seen);
  }

  /** At an inner node: the query's side first, then the other one unless it is pruned. */
  method SearchBoth(t: KdTree, rs: KnnResultSet, vec: Point, node: Node, mindistsq: real, dists: array<real>, epsError: real,
                    ghost v: seq<nat>, ghost ds: seq<real>, ghost seen: set<nat>)
    requires Answered(t, rs, vec, v, ds, Scaled(ds, epsError), seen) && epsError >= 1.0
    requires node.Inner? && WellFormed(node, t.points, v, t.dim, t.leafMax)
    requires dists.Length == t.dim && dists != rs.dists
    requires mindistsq == Sum(dists[..], t.dim) && Bounds(dists[..], vec, t.points, v, Lo(node), Hi(node))
    requires seen !! Slots(v, Lo(node), Hi(node))
    modifies rs`count, rs.dists, rs.indices, dists
    ensures dists[..] == old(dists[..])
    ensures Answered(t, rs, vec, v, ds, Scaled(ds, epsError), seen + Slots(v, Lo(node), Hi(node)))
    decreases node, 0
  {
    var bestChild, otherChild, cutDist := Branch(node, vec, t.points, v, t.leafMax, dists[..], seen);
    ghost var near := Slots(v, Lo(bestChild), Hi(bestChild));
    SearchLevel(t, rs, vec, bestChild, mindistsq, dists, epsError, v, ds, seen);
    VisitFar(t, rs, vec, otherChild, node.divfeat, cutDist, mindistsq, dists, epsError, v, ds, seen + near);
  }

  /** With the cut coordinate raised to cutDist, the far child is searched unless its lower
      bound already loses; the coordinate is put back afterwards. */
  method VisitFar(t: KdTree, rs: KnnResultSet, vec: Point, far: Node, idx: nat, cutDist: real, mindistsq: real,
                  dists: array<real>, epsError: real, ghost v: seq<nat>, ghost ds: seq<real>, ghost seen: set<nat>)
    requires Answered(t, rs, vec, v, ds, Scaled(ds, epsError), seen) && epsError >= 1.0
    requires WellFormed(far, t.points, v, t.dim, t.leafMax)
    requires dists.Length == t.dim && dists != rs.dists && idx < t.dim
    requires Bounds(dists[..][idx := cutDist], vec, t.points, v, Lo(far), Hi(far))
    requires mindistsq + cutDist - dists[idx] == Sum(dists[..][idx := cutDist], t.dim)
    requires seen !! Slots(v, Lo(far), Hi(far))
    modifies rs`count, rs.dists, rs.indices, dists
    ensures dists[..] == old(dists[..])
    ensures Answered(t, rs, vec, v, ds, Scaled(ds, epsError), seen + Slots(v, Lo(far), Hi(far)))
    decreases far, 2
  {
    ghost var d := dists[..];
    var dst := dists[idx];
    var rest := mindistsq + cutDist - dst;
    dists[idx] := cutDist;
    assert dists[..] == d[idx := cutDist];
    if rest * epsError <= rs.WorstDist() {
      SearchLevel(t, rs, vec, far, rest, dists, epsError, v, ds, seen);
    } else {
      RangeNonEmpty(far, t.points, v, t.dim, t.leafMax);
      PrunedLoses(dists[..], vec, t.points, v, Lo(far), Hi(far), ds, epsError, rest, rs.WorstDist());
      PassOver(rs.Contents(), rs.capacity, rs.bound, Scaled(ds, epsError), ds, seen, Slots(v, Lo(far), Hi(far)));
    }
    ghost var r := rs.Contents();
    dists[idx] := dst;
    assert dists[..] == d && rs.Contents() == r;
  }

  /** The near child as it is, and the far child with the cut coordinate raised. */
  lemma Descend(node: Node, points: seq<Point>, v: seq<nat>, vec: Point, leafMax: nat, d: seq<real>,
                best: Node, far: Node, plane: real, cutDist: real, seen: set<nat>)
    requires node.Inner? && WellFormed(node, points, v, |vec|, leafMax) && Injective(v)
    requires (best == node.child1 && far == node.child2) || (best == node.child2 && far == node.child1)
    requires FarSide(node, vec[node.divfeat], far, plane) && cutDist == Sq(vec[node.divfeat] - plane)
    requires Bounds(d, vec, points, v, Lo(node), Hi(node)) && seen !! Slots(v, Lo(node), Hi(node))
    ensures WellFormed(best, points, v, |vec|, leafMax) && WellFormed(far, points, v, |vec|, leafMax)
    ensures Bounds(d, vec, points, v, Lo(best), Hi(best))
    ensures Bounds(d[node.divfeat := cutDist], vec, points, v, Lo(far), Hi(far))
    ensures Sum(d[node.divfeat := cutDist], |vec|) == Sum(d, |vec|) + cutDist - d[node.divfeat]
    ensures seen !! Slots(v, Lo(best), Hi(best))
    ensures seen + Slots(v, Lo(best), Hi(best)) !! Slots(v, Lo(far), Hi(far))
    ensures seen + Slots(v, Lo(best), Hi(best)) + Slots(v, Lo(far), Hi(far)) == seen + Slots(v, Lo(node), Hi(node))
  {
    RangeNonEmpty(node.child1, points, v, |vec|, leafMax);
    RangeNonEmpty(node.child2, points, v, |vec|, leafMax);
    SlotsSplit(v, Lo(node), Hi(node.child1), Hi(node));
    FarSideBounds(d, vec, points, v, |vec|, leafMax, node, far, plane, cutDist);
    SumUpdate(d, |vec|, node.divfeat, cutDist);
  }

  /** The squared gap between a coordinate and a side of the root box. */
  function BoxGap(x: real, side: Interval): real {
    if x < side.low then Sq(x - side.low) else if x > side.high then Sq(x - side.high) else 0.0
  }

  lemma BoxGapBounds(d: seq<real>, vec: Point, points: seq<Point>, v: seq<nat>, n: nat, box: seq<Interval>)
    requires Tight(box, points, v, 0, n, |vec|) && |d| == |vec|
    requires forall i :: 0 <= i < |d| ==> d[i] == BoxGap(vec[i], box[i])
    ensures Bounds(d, vec, points, v, 0, n)
  {
    forall k, i | 0 <= k < n && 0 <= i < |vec| ensures d[i] <= Sq(vec[i] - At(points, v, k, i)) {
      assert Covers(box[i], points, v, 0, n, i);
      if vec[i] < box[i].low {
        SqMonotone(vec[i], box[i].low, At(points, v, k, i));
      } else if vec[i] > box[i].high {
        SqMonotone(vec[i], box[i].high, At(points, v, k, i));
      }
    }
  }

  ghost predicate InOrder(box: seq<Interval>) {
    forall i :: 0 <= i < |box| ==> box[i].low <= box[i].high
  }

  lemma BoxInOrder(box: seq<Interval>, points: seq<Point>, v: seq<nat>, n: nat, dim: nat)
    requires Tight(box, points, v, 0, n, dim)
    ensures InOrder(box)
  {
    forall i | 0 <= i < dim ensures box[i].low <= box[i].high {
      assert Covers(box[i], points, v, 0, n, i);
    }
  }

  method Zeros(n: nat) returns (a: array<real>)
    ensures fresh(a) && a.Length == n && forall i :: 0 <= i < n ==> a[i] == 0.0
  {
    a := new real[n];
    for i := 0 to n
      invariant forall j :: 0 <= j < i ==> a[j] == 0.0
    {
      a[i] := 0.0;
    }
  }

  method ComputeInitialDistances(vec: Point, box: seq<Interval>, dists: array<real>) returns (distsq: real)
    requires dists.Length == |vec| == |box|
    requires forall i :: 0 <= i < dists.Length ==> dists[i] == 0.0
    requires InOrder(box)
    modifies dists
    ensures forall i :: 0 <= i < dists.Length ==> dists[i] == BoxGap(vec[i], box[i])
    ensures distsq == Sum(dists[..], |vec|)
  {
    distsq := 0.0;
    for i := 0 to |vec|
      invariant forall j :: 0 <= j < i ==> dists[j] == BoxGap(vec[j], box[j])
      invariant forall j :: i <= j < |vec| ==> dists[j] == 0.0
      invariant distsq == Sum(dists[..], i)
    {
      ghost var d := dists[..];
      SumUpdate(d, i, i, BoxGap(vec[i], box[i]));
      if vec[i] < box[i].low {
        dists[i] := Sq(vec[i] - box[i].low);
        distsq := distsq + dists[i];
      }
      if vec[i] > box[i].high {
        dists[i] := Sq(vec[i] - box[i].high);
        distsq := distsq + dists[i];
      }
      assert dists[..] == d[i := BoxGap(vec[i], box[i])];
    }
  }

  /** Per-coordinate lower bounds over the whole tree, from its root box. */
  method InitialBounds(vec: Point, dim: nat, box: seq<Interval>, ghost points: seq<Point>, ghost v: seq<nat>, ghost n: nat)
    returns (dists: array<real>, distsq: real)
    requires Tight(box, points, v, 0, n, dim) && |vec| == dim
    ensures fresh(dists) && dists.Length == dim && distsq == Sum(dists[..], dim)
    ensures Bounds(dists[..], vec, points, v, 0, n)
  {
    dists := Zeros(dim);
    BoxInOrder(box, points, v, n, dim);
    distsq := ComputeInitialDistances(vec, box, dists);
    BoxGapBounds(dists[..], vec, points, v, n, box);
  }

  /** Searches a built index. For every eps the result is an answer in which whatever is left
      out loses by its distance times 1 + eps; without eps it lists the distances a full
      sort would list. */
  method FindNeighbors(t: KdTree, rs: KnnResultSet, vec: Point, eps: real) returns (full: bool)
    requires t.Built() && |vec| == t.dim && eps >= 0.0
    requires rs.Valid() && rs.Contents() == [] && t.vAcc != rs.indices
    modifies rs`count, rs.dists, rs.indices
    ensures rs.Valid() && full == (|t.points| > 0 && |rs.Contents()| == rs.capacity)
    ensures var ds := Distances(vec, t.points);
            && Answers(rs.Contents(), rs.capacity, rs.bound, Scaled(ds, 1.0 + eps), ds, Below(|t.points|))
            && (eps == 0.0 ==> Dists(rs.Contents()) == Dists(BruteForce(ds, rs.capacity, rs.bound)))
  {
    ghost var ds := Distances(vec, t.points);
    if |t.points| == 0 {
      assert ds == [] && BruteForce(ds, rs.capacity, rs.bound) == [];
      return false;
    }
    ghost var v := t.vAcc[..];
    PermutationCovers(v, |t.points|);
    ScaledScales(ds, 1.0 + eps);
    SearchFrom(t, rs, vec, t.root.value, t.rootBox, 1.0 + eps, v, ds);
    full := rs.Full();
    if eps == 0.0 { ExactOutcome(rs.Contents(), rs.capacity, rs.bound, ds); }
  }

  method SearchFrom(t: KdTree, rs: KnnResultSet, vec: Point, root: Node, box: seq<Interval>, epsError: real,
                    ghost v: seq<nat>, ghost ds: seq<real>)
    requires Ready(t, rs, vec, v, ds, Scaled(ds, epsError)) && epsError >= 1.0
    requires WellFormed(root, t.points, v, t.dim, t.leafMax) && Lo(root) == 0 && Hi(root) == |t.points|
    requires Tight(box, t.points, v, 0, |t.points|, t.dim)
    requires Slots(v, 0, |t.points|) == Below(|t.points|)
    requires rs.Valid() && rs.Contents() == []
    modifies rs`count, rs.dists, rs.indices
    ensures Answered(t, rs, vec, v, ds, Scaled(ds, epsError), Below(|t.points|))
  {
    var dists, distsq := InitialBounds(vec, t.dim, box, t.points, v, |t.points|);
    SearchLevel(t, rs, vec, root, distsq, dists, epsError, v, ds, {});
    assert {} + Slots(v, 0, |t.points|) == Below(|t.points|);
  }

  lemma ExactOutcome(r: seq<Neighbor>, k: nat, bound: real, ds: seq<real>)
    requires k >= 1 && Answers(r, k, bound, Scaled(ds, 1.0), ds, Below(|ds|))
    ensures Dists(r) == Dists(BruteForce(ds, k, bound))
  {
    assert Scaled(ds, 1.0) == ds;
    BruteForceAnswers(ds, k, bound);
    ExactAnswersAgree(r, BruteForce(ds, k, bound), k, bound, ds, Below(|ds|));
  }

  /** Exact k-nearest query into caller-owned buffers: distinct point numbers with their true
      distances, and the distances are the k smallest of all. */
  method KnnSearch(t: KdTree, vec: Point, k: nat, bound: real, outIndices: array<nat>, outDists: array<real>) returns (n: nat)
    requires t.Built() && |vec| == t.dim && k >= 1
    requires k <= outIndices.Length && k <= outDists.Length && t.vAcc != outIndices
    modifies outIndices, outDists
    ensures n <= k
    ensures forall i :: 0 <= i < n ==> outIndices[i] < |t.points| && outDists[i] == DistSq(vec, t.points[outIndices[i]])
    ensures forall i, j :: 0 <= i < j < n ==> outIndices[i] != outIndices[j]
    ensures outDists[..n] == Dists(BruteForce(Distances(vec, t.points), k, bound))
  {
    var rs := new KnnResultSet(k, bound, outIndices, outDists);
    var _ := FindNeighbors(t, rs, vec, 0.0);
    n := rs.count;
    ghost var r := rs.Contents();
    assert forall i :: 0 <= i < n ==> r[i] == Neighbor(outDists[i], outIndices[i]);
    assert outDists[..n] == Dists(r);
  }

  /** With every distance representable the query returns min(k, n) points. */
  lemma BruteForceCount(ds: seq<real>, k: nat, bound: real)
    requires k >= 1 && forall x :: 0 <= x < |ds| ==> ds[x] < bound
    ensures |BruteForce(ds, k, bound)| == if |ds| < k then |ds| else k
  {
    SortAllSorts(ds, bound);
    var all := SortAll(ds, bound);
    forall x: nat ensures x in Indices(all) <==> x in Below(|ds|) {
      assert x < |ds| ==> Has(all, x);
    }
    assert Indices(all) == Below(|ds|);
    IndicesCount(all);
    BelowCount(|ds|);
  }

  lemma {:induction false} BelowCount(n: nat)
    ensures |Below(n)| == n
  {
    if n > 0 { BelowCount(n - 1); }
  }
}
