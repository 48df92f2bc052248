/** Building the k-d tree: in-place three-way partition of an index table and
    recursive division with exact bounding boxes. */
module KdTrees {
  import opened Points
  import opened Wrappers

  datatype Interval = Interval(low: real, high: real)

  /** A leaf names a range of the index table; an inner node names the cut. */
  datatype Node =
    | Leaf(left: nat, right: nat)
    | Inner(divfeat: nat, divlow: real, divhigh: real, child1: Node, child2: Node)

  function Lo(t: Node): nat {
    match t
    case Leaf(left, _) => left
    case Inner(_, _, _, c1, _) => Lo(c1)
  }

  function Hi(t: Node): nat {
    match t
    case Leaf(_, right) => right
    case Inner(_, _, _, _, c2) => Hi(c2)
  }

  /** Leaf ranges are non-empty and adjoin one another; a range is a leaf when it is at most leafMax
      long, and is cut otherwise; each cut
      records the left maximum and the right minimum of its coordinate. */
  ghost predicate WellFormed(t: Node, points: seq<Point>, v: seq<nat>, dim: nat, leafMax: nat)
    decreases t
  {
    match t
    case Leaf(left, right) => left < right <= |v| && right - left <= leafMax
    case Inner(f, low, high, c1, c2) =>
      && WellFormed(c1, points, v, dim, leafMax)
      && WellFormed(c2, points, v, dim, leafMax)
      && Hi(c1) == Lo(c2) && Hi(c2) - Lo(c1) > leafMax
      && f < dim
      && low <= high
      && IsMax(low, points, v, Lo(c1), Hi(c1), f)
      && IsMin(high, points, v, Lo(c2), Hi(c2), f)
  }

  lemma {:induction false} RangeNonEmpty(t: Node, points: seq<Point>, v: seq<nat>, dim: nat, leafMax: nat)
    requires WellFormed(t, points, v, dim, leafMax)
    ensures Lo(t) < Hi(t) <= |v|
    decreases t
  {
    match t
    case Leaf(_, _) =>
    case Inner(_, _, _, c1, c2) =>
      RangeNonEmpty(c1, points, v, dim, leafMax);
      RangeNonEmpty(c2, points, v, dim, leafMax);
  }

  ghost predicate SameOn(v: seq<nat>, w: seq<nat>, lo: int, hi: int) {
    |v| == |w| && forall k :: lo <= k < hi && 0 <= k < |v| ==> v[k] == w[k]
  }

  lemma SameMinMax(x: real, points: seq<Point>, v: seq<nat>, w: seq<nat>, lo: int, hi: int, f: nat)
    requires SameOn(v, w, lo, hi)
    ensures IsMin(x, points, v, lo, hi, f) ==> IsMin(x, points, w, lo, hi, f)
    ensures IsMax(x, points, v, lo, hi, f) ==> IsMax(x, points, w, lo, hi, f)
  {
    assert forall k :: lo <= k < hi ==> At(points, v, k, f) == At(points, w, k, f);
  }

  /** A tree depends only on the slots of its own range. */
  lemma {:induction false} WellFormedLocal(t: Node, points: seq<Point>, v: seq<nat>, w: seq<nat>, dim: nat, leafMax: nat)
    requires WellFormed(t, points, v, dim, leafMax)
    requires SameOn(v, w, Lo(t), Hi(t))
    ensures WellFormed(t, points, w, dim, leafMax)
    decreases t
  {
    match t
    case Leaf(_, _) =>
    case Inner(f, low, high, c1, c2) =>
      RangeNonEmpty(c1, points, v, dim, leafMax);
      RangeNonEmpty(c2, points, v, dim, leafMax);
      WellFormedLocal(c1, points, v, w, dim, leafMax);
      WellFormedLocal(c2, points, v, w, dim, leafMax);
      SameMinMax(low, points, v, w, Lo(c1), Hi(c1), f);
      SameMinMax(high, points, v, w, Lo(c2), Hi(c2), f);
  }

  /** A box is tight when every side is the exact extent of the range. */
  ghost predicate Tight(box: seq<Interval>, points: seq<Point>, v: seq<nat>, lo: int, hi: int, dim: nat) {
    && |box| == dim
    && (forall i :: 0 <= i < dim ==> Covers(box[i], points, v, lo, hi, i))
  }

  ghost predicate Covers(side: Interval, points: seq<Point>, v: seq<nat>, lo: int, hi: int, f: nat) {
    IsMin(side.low, points, v, lo, hi, f) && IsMax(side.high, points, v, lo, hi, f)
  }

  lemma ExtendCovers(was: Interval, now: Interval, x: real, points: seq<Point>, v: seq<nat>, lo: int, hi: int, f: nat)
    requires Covers(was, points, v, lo, hi, f) && x == At(points, v, hi, f) && lo <= hi
    requires now == Interval(if was.low > x then x else was.low, if was.high < x then x else was.high)
    ensures Covers(now, points, v, lo, hi + 1, f)
  {
    assert IsMin(x, points, v, hi, hi + 1, f) && IsMax(x, points, v, hi, hi + 1, f);
    JoinMin(was.low, x, points, v, lo, hi, hi + 1, f);
    JoinMax(was.high, x, points, v, lo, hi, hi + 1, f);
  }

  function Min(a: real, b: real): real { if b < a then b else a }

  function Max(a: real, b: real): real { if a < b then b else a }

  /** The three-way split around a value, relative to the start of a range. */
  ghost predicate SplitAround(points: seq<Point>, v: seq<nat>, ind: nat, count: nat, f: nat, cut: real, lim1: nat, lim2: nat) {
    && lim1 <= lim2 <= count
    && (forall k :: ind <= k < ind + lim1 ==> At(points, v, k, f) < cut)
    && (forall k :: ind + lim1 <= k < ind + lim2 ==> At(points, v, k, f) == cut)
    && (forall k :: ind + lim2 <= k < ind + count ==> At(points, v, k, f) > cut)
  }

  ghost predicate Cut(points: seq<Point>, v: seq<nat>, lo: nat, mid: nat, hi: nat, f: nat, cut: real) {
    && (forall k :: lo <= k < mid ==> At(points, v, k, f) <= cut)
    && (forall k :: mid <= k < hi ==> cut <= At(points, v, k, f))
  }

  const EPS := 0.00001

  function Span(bbox: seq<Interval>, i: nat): real
    requires i < |bbox|
  {
    bbox[i].high - bbox[i].low
  }

  /** Feature i is among the widest sides of the box, up to the tolerance. */
  ghost predicate Wide(bbox: seq<Interval>, i: nat)
    requires i < |bbox|
  {
    forall j :: 0 <= j < |bbox| ==> Span(bbox, i) > (1.0 - EPS) * Span(bbox, j)
  }

  /** The points of the range extend over exactly s along feature f. */
  ghost predicate HasSpread(s: real, points: seq<Point>, v: seq<nat>, lo: nat, hi: nat, f: nat) {
    exists a, b :: IsMin(a, points, v, lo, hi, f) && IsMax(b, points, v, lo, hi, f) && s == b - a
  }

  ghost predicate HasExtent(points: seq<Point>, v: seq<nat>, lo: nat, hi: nat, f: nat) {
    exists s :: HasSpread(s, points, v, lo, hi, f)
  }

  /** The cut feature: the largest spread among the wide sides, or 0 if no side is wide. */
  ghost predicate BestCut(points: seq<Point>, v: seq<nat>, lo: nat, hi: nat, bbox: seq<Interval>, f: nat)
    requires f < |bbox|
  {
    || (f == 0 && forall i :: 0 <= i < |bbox| ==> !Wide(bbox, i))
    || (Wide(bbox, f) && (exists s :: HasSpread(s, points, v, lo, hi, f)
                           && (forall i, t :: 0 <= i < |bbox| && Wide(bbox, i) && HasSpread(t, points, v, lo, hi, i) ==> t <= s)))
  }

  /** The value to cut at: the middle of the box side, moved to the nearest extent of the points when
      they do not reach it. */
  ghost predicate MiddleCut(points: seq<Point>, v: seq<nat>, lo: nat, hi: nat, side: Interval, f: nat, cut: real) {
    forall a, b :: IsMin(a, points, v, lo, hi, f) && IsMax(b, points, v, lo, hi, f) ==>
                     && a <= cut <= b
                     && (2.0 * a <= side.low + side.high <= 2.0 * b ==> 2.0 * cut == side.low + side.high)
                     && (side.low + side.high < 2.0 * a ==> cut == a)
                     && (side.low + side.high > 2.0 * b ==> cut == b)
  }

  /** The halves are as even as the cut value allows: only points equal to it move to even them out. */
  ghost predicate Balanced(points: seq<Point>, v: seq<nat>, lo: nat, mid: nat, hi: nat, f: nat, cut: real) {
    || mid == lo + (hi - lo) / 2
    || (mid > lo + (hi - lo) / 2 && forall k :: lo <= k < mid ==> At(points, v, k, f) < cut)
    || (mid < lo + (hi - lo) / 2 && forall k :: mid <= k < hi ==> At(points, v, k, f) > cut)
  }

  class KdTree {
    const points: seq<Point>
    const dim: nat
    const leafMax: nat
    const vAcc: array<nat>
    var root: Option<Node>
    var rootBox: seq<Interval>

    /** The index table: a permutation of all point numbers. */
    ghost predicate Table()
      reads vAcc
    {
      && dim >= 1 && leafMax >= 1
      && Uniform(points, dim)
      && vAcc.Length == |points|
      && InTable(points, vAcc[..])
    }

    ghost predicate Built()
      reads this, vAcc
    {
      && Table()
      && multiset(vAcc[..]) == multiset(Identity(|points|))
      && (|points| == 0 <==> root.None?)
      && (root.Some? ==>
            && WellFormed(root.value, points, vAcc[..], dim, leafMax)
            && Lo(root.value) == 0 && Hi(root.value) == |points|
            && Tight(rootBox, points, vAcc[..], 0, |points|, dim))
    }

    method ComputeMinMax(ind: nat, count: nat, f: nat) returns (minElem: real, maxElem: real)
      requires Table() && count >= 1 && ind + count <= vAcc.Length && f < dim
      ensures IsMin(minElem, points, vAcc[..], ind, ind + count, f)
      ensures IsMax(maxElem, points, vAcc[..], ind, ind + count, f)
    {
      ghost var v := vAcc[..];
      minElem := points[vAcc[ind]][f];
      maxElem := minElem;
      assert At(points, v, ind, f) == minElem;
      for i := 1 to count
        invariant IsMin(minElem, points, v, ind, ind + i, f)
        invariant IsMax(maxElem, points, v, ind, ind + i, f)
      {
        var val := points[vAcc[ind + i]][f];
        assert At(points, v, ind + i, f) == val;
        if val < minElem { minElem := val; }
        if val > maxElem { maxElem := val; }
      }
    }

    /** The exact extent of a range in every coordinate. */
    method Extent(left: nat, right: nat) returns (box: seq<Interval>)
      requires Table() && left < right <= vAcc.Length
      ensures Tight(box, points, vAcc[..], left, right, dim)
    {
      ghost var v := vAcc[..];
      box := [];
      for i := 0 to dim
        invariant |box| == i
        invariant forall j :: 0 <= j < i ==> Covers(box[j], points, v, left, left + 1, j)
      {
        box := box + [Interval(points[vAcc[left]][i], points[vAcc[left]][i])];
        assert At(points, v, left, i) == box[i].low;
      }
      for k := left + 1 to right
        invariant |box| == dim
        invariant forall j :: 0 <= j < dim ==> Covers(box[j], points, v, left, k, j)
      {
        for i := 0 to dim
          invariant |box| == dim
          invariant forall j :: 0 <= j < i ==> Covers(box[j], points, v, left, k + 1, j)
          invariant forall j :: i <= j < dim ==> Covers(box[j], points, v, left, k, j)
        {
          var x := points[vAcc[k]][i];
          ghost var was := box[i];
          if box[i].low > x { box := box[i := box[i].(low := x)]; }
          if box[i].high < x { box := box[i := box[i].(high := x)]; }
          ExtendCovers(was, box[i], x, points, v, left, k, i);
        }
      }
    }

    method Swap(i: nat, j: nat)
      requires Table() && i < vAcc.Length && j < vAcc.Length
      modifies vAcc
      ensures Table()
      ensures vAcc[..] == Swapped(old(vAcc[..]), i, j)
    {
      vAcc[i], vAcc[j] := vAcc[j], vAcc[i];
    }

    /** One sweep of the partition: slots from `from` on that satisfy the test move to the front.
        With `strict` the test is `< cut`, otherwise `<= cut`. */
    method Sweep(ind: nat, from: nat, count: nat, f: nat, cut: real, strict: bool) returns (left: nat)
      requires Table() && from <= count && 1 <= count && ind + count <= vAcc.Length && f < dim
      modifies vAcc
      ensures Table() && Rearranged(old(vAcc[..]), vAcc[..], ind + from, ind + count)
      ensures from <= left <= count
      ensures AllPass(points, vAcc[..], ind + from, ind + left, f, cut, strict)
      ensures NonePass(points, vAcc[..], ind + left, ind + count, f, cut, strict)
    {
      ghost var v := vAcc[..];
      left := from;
      var right := count - 1;
      while true
        invariant from <= left <= count && 0 <= right < count && left <= right + 1
        invariant v == vAcc[..] && InTable(points, v)
        invariant Rearranged(old(vAcc[..]), v, ind + from, ind + count)
        invariant AllPass(points, v, ind + from, ind + left, f, cut, strict)
        invariant NonePass(points, v, ind + right + 1, ind + count, f, cut, strict)
        decreases right - left
      {
        while left <= right && Passes(points[vAcc[ind + left]][f], cut, strict)
          invariant left <= right + 1
          invariant AllPass(points, v, ind + from, ind + left, f, cut, strict)
        {
          left := left + 1;
        }
        while right != 0 && left <= right && !Passes(points[vAcc[ind + right]][f], cut, strict)
          invariant 0 <= right < count && left <= right + 1
          invariant NonePass(points, v, ind + right + 1, ind + count, f, cut, strict)
          decreases right
        {
          right := right - 1;
        }
        if left > right || right == 0 {
          break;
        }
        ghost var w := v;
        Swap(ind + left, ind + right);
        v := vAcc[..];
        SwapGrows(points, w, v, f, cut, strict, ind + from, ind + left, ind + right, ind + count);
        left := left + 1;
        right := right - 1;
      }
    }

    method PlaneSplit(ind: nat, count: nat, f: nat, cut: real) returns (lim1: nat, lim2: nat)
      requires Table() && 1 <= count && ind + count <= vAcc.Length && f < dim
      modifies vAcc
      ensures Table() && Rearranged(old(vAcc[..]), vAcc[..], ind, ind + count)
      ensures SplitAround(points, vAcc[..], ind, count, f, cut, lim1, lim2)
    {
      lim1 := Sweep(ind, 0, count, f, cut, true);
      ghost var v := vAcc[..];
      lim2 := Sweep(ind, lim1, count, f, cut, false);
      forall k | ind <= k < ind + lim1 ensures At(points, vAcc[..], k, f) < cut {
        assert At(points, v, k, f) == At(points, vAcc[..], k, f);
      }
      forall k | ind + lim1 <= k < ind + lim2 ensures At(points, vAcc[..], k, f) >= cut {
        var j := RearrangedFrom(v, vAcc[..], ind + lim1, ind + count, k);
        assert At(points, v, j, f) == At(points, vAcc[..], k, f);
        assert !Passes(At(points, v, j, f), cut, true);
      }
    }

    /** Cuts the range near the middle of a wide side; neither half is empty. */
    method MiddleSplit(ind: nat, count: nat, bbox: seq<Interval>) returns (index: nat, cutfeat: nat, cutval: real)
      requires Table() && 2 <= count && ind + count <= vAcc.Length && |bbox| == dim
      modifies vAcc
      ensures Table() && Rearranged(old(vAcc[..]), vAcc[..], ind, ind + count)
      ensures 0 < index < count && cutfeat < dim
      ensures BestCut(points, old(vAcc[..]), ind, ind + count, bbox, cutfeat)
      ensures Cut(points, vAcc[..], ind, ind + index, ind + count, cutfeat, cutval)
      ensures MiddleCut(points, old(vAcc[..]), ind, ind + count, bbox[cutfeat], cutfeat, cutval)
      ensures Balanced(points, vAcc[..], ind, ind + index, ind + count, cutfeat, cutval)
    {
      cutfeat := ChooseFeature(ind, count, bbox);
      cutval := CutValue(ind, count, bbox[cutfeat], cutfeat);
      ghost var v := vAcc[..];
      ghost var kMin, kMax := CutIsReached(points, v, ind, ind + count, bbox[cutfeat], cutfeat, cutval);
      var lim1, lim2 := PlaneSplit(ind, count, cutfeat, cutval);
      SplitIsProper(points, v, vAcc[..], ind, count, cutfeat, cutval, lim1, lim2, kMin, kMax);
      index := if lim1 > count / 2 then lim1 else if lim2 < count / 2 then lim2 else count / 2;
      HalvesAreBalanced(points, vAcc[..], ind, count, cutfeat, cutval, lim1, lim2, index);
    }

    /** The middle of the box side, kept within the extent of the points. */
    method CutValue(ind: nat, count: nat, side: Interval, f: nat) returns (cutval: real)
      requires Table() && 1 <= count && ind + count <= vAcc.Length && f < dim
      ensures MiddleCut(points, vAcc[..], ind, ind + count, side, f, cutval)
      ensures HasExtent(points, vAcc[..], ind, ind + count, f)
    {
      var splitVal := (side.low + side.high) / 2.0;
      var minElem, maxElem := ComputeMinMax(ind, count, f);
      cutval := if splitVal < minElem then minElem else if splitVal > maxElem then maxElem else splitVal;
      CutIsMiddle(points, vAcc[..], ind, ind + count, side, f, minElem, maxElem, cutval);
      assert HasSpread(maxElem - minElem, points, vAcc[..], ind, ind + count, f);
    }

    method ChooseFeature(ind: nat, count: nat, bbox: seq<Interval>) returns (cutfeat: nat)
      requires Table() && 1 <= count && ind + count <= vAcc.Length && |bbox| == dim
      ensures cutfeat < dim && BestCut(points, vAcc[..], ind, ind + count, bbox, cutfeat)
    {
      ghost var v := vAcc[..];
      var maxSpan := bbox[0].high - bbox[0].low;
      ghost var widest := 0;
      for i := 1 to dim
        invariant 0 <= widest < i && maxSpan == Span(bbox, widest)
        invariant forall j :: 0 <= j < i ==> Span(bbox, j) <= maxSpan
      {
        var span := bbox[i].high - bbox[i].low;
        if span > maxSpan { maxSpan := span; widest := i; }
      }
      ghost var end := ind + count;
      var maxSpread := -1.0;
      cutfeat := 0;
      for i := 0 to dim
        invariant cutfeat < dim
        invariant maxSpread >= 0.0 ==> Wide(bbox, cutfeat) && HasSpread(maxSpread, points, v, ind, end, cutfeat)
        invariant maxSpread < 0.0 ==> maxSpread == -1.0 && cutfeat == 0 && forall j :: 0 <= j < i ==> !Wide(bbox, j)
        invariant forall j, t :: 0 <= j < i && Wide(bbox, j) && HasSpread(t, points, v, ind, end, j) ==> t <= maxSpread
      {
        var span := bbox[i].high - bbox[i].low;
        assert span == Span(bbox, i);
        assert Wide(bbox, i) <==> span > (1.0 - EPS) * maxSpan;
        if span > (1.0 - EPS) * maxSpan {
          var minElem, maxElem := ComputeMinMax(ind, count, i);
          var spread := maxElem - minElem;
          SpreadIsUnique(spread, minElem, maxElem, points, v, ind, ind + count, i);
          if spread > maxSpread {
            cutfeat := i;
            maxSpread := spread;
          }
        }
      }
    }

    method JoinBoxes(leftBox: seq<Interval>, rightBox: seq<Interval>, ghost left: nat, ghost mid: nat, ghost right: nat)
      returns (box: seq<Interval>)
      requires left < mid < right
      requires Tight(leftBox, points, vAcc[..], left, mid, dim) && Tight(rightBox, points, vAcc[..], mid, right, dim)
      ensures Tight(box, points, vAcc[..], left, right, dim)
    {
      ghost var v := vAcc[..];
      box := [];
      for i := 0 to dim
        invariant |box| == i
        invariant forall j :: 0 <= j < i ==> Covers(box[j], points, v, left, right, j)
      {
        JoinMin(leftBox[i].low, rightBox[i].low, points, v, left, mid, right, i);
        JoinMax(leftBox[i].high, rightBox[i].high, points, v, left, mid, right, i);
        box := box + [Interval(Min(leftBox[i].low, rightBox[i].low), Max(leftBox[i].high, rightBox[i].high))];
      }
    }

    /** Divides the slots left..right; box comes back as their exact extent. */
    method DivideTree(left: nat, right: nat, bbox: seq<Interval>) returns (node: Node, box: seq<Interval>)
      requires Table() && left < right <= vAcc.Length && |bbox| == dim
      modifies vAcc
      ensures Table() && Rearranged(old(vAcc[..]), vAcc[..], left, right)
      ensures WellFormed(node, points, vAcc[..], dim, leafMax) && Lo(node) == left && Hi(node) == right
      ensures Tight(box, points, vAcc[..], left, right, dim)
      decreases right - left, 1
    {
      if right - left <= leafMax {
        node := Leaf(left, right);
        box := Extent(left, right);
      } else {
        var idx, cutfeat, cutval := MiddleSplit(left, right - left, bbox);
        var leftBox, rightBox;
        node, leftBox, rightBox := DivideHalves(left, left + idx, right, cutfeat, cutval, bbox);
        box := JoinBoxes(leftBox, rightBox, left, left + idx, right);
      }
    }

    /** Divides both halves of a cut range and records the cut. */
    method DivideHalves(left: nat, mid: nat, right: nat, cutfeat: nat, cutval: real, bbox: seq<Interval>)
      returns (node: Node, leftBox: seq<Interval>, rightBox: seq<Interval>)
      requires Table() && left < mid < right <= vAcc.Length && right - left > leafMax && cutfeat < dim == |bbox|
      requires Cut(points, vAcc[..], left, mid, right, cutfeat, cutval)
      modifies vAcc
      ensures Table() && Rearranged(old(vAcc[..]), vAcc[..], left, right)
      ensures WellFormed(node, points, vAcc[..], dim, leafMax) && Lo(node) == left && Hi(node) == right
      ensures Tight(leftBox, points, vAcc[..], left, mid, dim) && Tight(rightBox, points, vAcc[..], mid, right, dim)
      decreases right - left, 0
    {
      ghost var v0 := vAcc[..];
      var child1, child2;
      child1, leftBox := DivideTree(left, mid, bbox[cutfeat := bbox[cutfeat].(high := cutval)]);
      ghost var v1 := vAcc[..];
      child2, rightBox := DivideTree(mid, right, bbox[cutfeat := bbox[cutfeat].(low := cutval)]);
      ghost var v2 := vAcc[..];
      node := Inner(cutfeat, leftBox[cutfeat].high, rightBox[cutfeat].low, child1, child2);
      CutIsRecorded(points, v0, v1, v2, left, mid, right, cutval, node, leftBox, rightBox, dim, leafMax);
    }

    constructor (points: seq<Point>, dim: nat, leafMax: nat)
      requires dim >= 1 && leafMax >= 1 && Uniform(points, dim)
      ensures Built() && this.points == points && this.dim == dim && this.leafMax == leafMax
      ensures fresh(vAcc)
    {
      this.points, this.dim, this.leafMax := points, dim, leafMax;
      vAcc := new nat[|points|](i => i);
      root, rootBox := None, [];
      new;
      BuildIndex();
    }

    /** Refills the index table and rebuilds the tree. */
    method BuildIndex()
      requires dim >= 1 && leafMax >= 1 && Uniform(points, dim) && vAcc.Length == |points|
      modifies this`root, this`rootBox, vAcc
      ensures Built()
    {
      for i := 0 to |points|
        invariant forall j :: 0 <= j < i ==> vAcc[j] == j
      {
        vAcc[i] := i;
      }
      assert vAcc[..] == Identity(|points|);
      root := None;
      if |points| == 0 { return; }
      rootBox := Extent(0, |points|);
      var node, box := DivideTree(0, |points|, rootBox);
      root, rootBox := Some(node), box;
    }
  }

  lemma TightLocal(box: seq<Interval>, points: seq<Point>, v: seq<nat>, w: seq<nat>, lo: int, hi: int, dim: nat)
    requires Tight(box, points, v, lo, hi, dim) && SameOn(v, w, lo, hi)
    ensures Tight(box, points, w, lo, hi, dim)
  {
    forall i | 0 <= i < dim ensures Covers(box[i], points, w, lo, hi, i) {
      SameMinMax(box[i].low, points, v, w, lo, hi, i);
      SameMinMax(box[i].high, points, v, w, lo, hi, i);
    }
  }

  lemma CutIsMiddle(points: seq<Point>, v: seq<nat>, lo: nat, hi: nat, side: Interval, f: nat, a: real, b: real, cut: real)
    requires IsMin(a, points, v, lo, hi, f) && IsMax(b, points, v, lo, hi, f)
    requires var m := (side.low + side.high) / 2.0; cut == if m < a then a else if m > b then b else m
    ensures MiddleCut(points, v, lo, hi, side, f, cut)
  {
    forall x, y | IsMin(x, points, v, lo, hi, f) && IsMax(y, points, v, lo, hi, f) ensures x == a && y == b {
      OneExtent(points, v, lo, hi, f, a, x, b, y);
    }
  }

  /** Some point is not above the cut, and some point is not below it. */
  lemma CutIsReached(points: seq<Point>, v: seq<nat>, lo: nat, hi: nat, side: Interval, f: nat, cut: real) returns (k: nat, l: nat)
    requires MiddleCut(points, v, lo, hi, side, f, cut)
    requires HasExtent(points, v, lo, hi, f)
    ensures lo <= k < hi && lo <= l < hi && At(points, v, k, f) <= cut <= At(points, v, l, f)
  {
    var s :| HasSpread(s, points, v, lo, hi, f);
    var a, b :| IsMin(a, points, v, lo, hi, f) && IsMax(b, points, v, lo, hi, f) && s == b - a;
    k :| lo <= k < hi && At(points, v, k, f) == a;
    l :| lo <= l < hi && At(points, v, l, f) == b;
  }

  lemma HalvesAreBalanced(points: seq<Point>, v: seq<nat>, ind: nat, count: nat, f: nat, cut: real, lim1: nat, lim2: nat,
                          index: nat)
    requires SplitAround(points, v, ind, count, f, cut, lim1, lim2)
    requires index == if lim1 > count / 2 then lim1 else if lim2 < count / 2 then lim2 else count / 2
    ensures Balanced(points, v, ind, ind + index, ind + count, f, cut)
  {
  }

  lemma OneExtent(points: seq<Point>, v: seq<nat>, lo: nat, hi: nat, f: nat, a: real, x: real, b: real, y: real)
    requires IsMin(a, points, v, lo, hi, f) && IsMin(x, points, v, lo, hi, f)
    requires IsMax(b, points, v, lo, hi, f) && IsMax(y, points, v, lo, hi, f)
    ensures a == x && b == y
  {
  }

  lemma SpreadIsUnique(s: real, a: real, b: real, points: seq<Point>, v: seq<nat>, lo: nat, hi: nat, f: nat)
    requires IsMin(a, points, v, lo, hi, f) && IsMax(b, points, v, lo, hi, f) && s == b - a
    ensures HasSpread(s, points, v, lo, hi, f) && s >= 0.0
    ensures forall t :: HasSpread(t, points, v, lo, hi, f) ==> t == s
  {
    var k :| lo <= k < hi && At(points, v, k, f) == a;
  }

  /** A cut value within the extent of the range leaves something on both sides. */
  lemma SplitIsProper(points: seq<Point>, v: seq<nat>, w: seq<nat>, ind: nat, count: nat, f: nat, cut: real,
                      lim1: nat, lim2: nat, kMin: nat, kMax: nat)
    requires Rearranged(v, w, ind, ind + count) && ind + count <= |v|
    requires SplitAround(points, w, ind, count, f, cut, lim1, lim2)
    requires ind <= kMin < ind + count && At(points, v, kMin, f) <= cut
    requires ind <= kMax < ind + count && cut <= At(points, v, kMax, f)
    ensures lim1 < count && 0 < lim2
  {
    assert Rearranged(w, v, ind, ind + count);
    var i := RearrangedFrom(w, v, ind, ind + count, kMin);
    var j := RearrangedFrom(w, v, ind, ind + count, kMax);
    assert At(points, w, i, f) <= cut <= At(points, w, j, f);
  }

  /** Permuting the two halves separately keeps the recorded cut in order. */
  lemma CutOrder(points: seq<Point>, v0: seq<nat>, v1: seq<nat>, v2: seq<nat>, left: nat, mid: nat, right: nat, f: nat,
                 cut: real, low: real, high: real)
    requires left < mid < right <= |v0| && Rearranged(v0, v1, left, mid) && Rearranged(v1, v2, mid, right)
    requires Cut(points, v0, left, mid, right, f, cut)
    requires IsMax(low, points, v2, left, mid, f) && IsMin(high, points, v2, mid, right, f)
    ensures low <= cut <= high
  {
    var i :| left <= i < mid && At(points, v2, i, f) == low;
    var i' := RearrangedFrom(v0, v1, left, mid, i);
    assert At(points, v0, i', f) == low;
    var j :| mid <= j < right && At(points, v2, j, f) == high;
    var j' := RearrangedFrom(v1, v2, mid, right, j);
    assert At(points, v0, j', f) == high;
  }

  /** Both halves were divided in place, one after the other: the first survives the second. */
  lemma CutIsRecorded(points: seq<Point>, v0: seq<nat>, v1: seq<nat>, v2: seq<nat>, left: nat, mid: nat, right: nat,
                      cut: real, node: Node, leftBox: seq<Interval>, rightBox: seq<Interval>, dim: nat, leafMax: nat)
    requires left < mid < right <= |v0| && right - left > leafMax
    requires Rearranged(v0, v1, left, mid) && Rearranged(v1, v2, mid, right)
    requires node.Inner? && node.divfeat < dim && Cut(points, v0, left, mid, right, node.divfeat, cut)
    requires Tight(leftBox, points, v1, left, mid, dim) && Tight(rightBox, points, v2, mid, right, dim)
    requires node.divlow == leftBox[node.divfeat].high && node.divhigh == rightBox[node.divfeat].low
    requires WellFormed(node.child1, points, v1, dim, leafMax) && Lo(node.child1) == left && Hi(node.child1) == mid
    requires WellFormed(node.child2, points, v2, dim, leafMax) && Lo(node.child2) == mid && Hi(node.child2) == right
    ensures WellFormed(node, points, v2, dim, leafMax) && Rearranged(v0, v2, left, right)
    ensures Tight(leftBox, points, v2, left, mid, dim)
  {
    WellFormedLocal(node.child1, points, v1, v2, dim, leafMax);
    TightLocal(leftBox, points, v1, v2, left, mid, dim);
    var f := node.divfeat;
    assert Covers(leftBox[f], points, v2, left, mid, f) && Covers(rightBox[f], points, v2, mid, right, f);
    CutOrder(points, v0, v1, v2, left, mid, right, f, cut, node.divlow, node.divhigh);
  }

  /** Exchanging a failing front slot with a passing back slot extends both finished ends. */
  lemma SwapGrows(points: seq<Point>, v: seq<nat>, w: seq<nat>, f: nat, cut: real, strict: bool,
                  lo: nat, i: nat, j: nat, hi: nat)
    requires lo <= i < j < hi <= |v| && w == Swapped(v, i, j)
    requires AllPass(points, v, lo, i, f, cut, strict) && NonePass(points, v, j + 1, hi, f, cut, strict)
    requires !Passes(At(points, v, i, f), cut, strict) && Passes(At(points, v, j, f), cut, strict)
    ensures InTable(points, v) ==> InTable(points, w)
    ensures Rearranged(v, w, lo, hi)
    ensures AllPass(points, w, lo, i + 1, f, cut, strict) && NonePass(points, w, j, hi, f, cut, strict)
  {
    forall k | lo <= k < hi
      ensures At(points, w, k, f) == At(points, v, if k == i then j else if k == j then i else k, f)
    {
    }
  }

  function Swapped(v: seq<nat>, i: nat, j: nat): seq<nat>
    requires i < |v| && j < |v|
  {
    v[i := v[j]][j := v[i]]
  }

  ghost predicate AllPass(points: seq<Point>, v: seq<nat>, lo: nat, hi: nat, f: nat, cut: real, strict: bool) {
    forall k :: lo <= k < hi ==> Passes(At(points, v, k, f), cut, strict)
  }

  ghost predicate NonePass(points: seq<Point>, v: seq<nat>, lo: nat, hi: nat, f: nat, cut: real, strict: bool) {
    forall k :: lo <= k < hi ==> !Passes(At(points, v, k, f), cut, strict)
  }

  predicate Passes(x: real, cut: real, strict: bool) {
    if strict then x < cut else x <= cut
  }

  function Identity(n: nat): (s: seq<nat>)
    ensures |s| == n && forall i :: 0 <= i < n ==> s[i] == i
  {
    seq(n, i => i)
  }
}
