/** The result buffer of a k-nearest query: two caller-owned arrays kept sorted in place. */
module KnnResults {
  import opened Nearest

  /** Pairs up the first entries of the two buffers. */
  function Zip(dists: seq<real>, indices: seq<nat>): (r: seq<Neighbor>)
    requires |dists| == |indices|
    ensures |r| == |dists|
    ensures forall i :: 0 <= i < |r| ==> r[i] == Neighbor(dists[i], indices[i])
  {
    seq(|dists|, i requires 0 <= i < |dists| => Neighbor(dists[i], indices[i]))
  }

  /** The buffers hold r with slot i left open, cut to k entries. */
  ghost predicate Around(dists: seq<real>, indices: seq<nat>, r: seq<Neighbor>, i: nat, k: nat) {
    && |dists| >= k && |indices| >= k
    && (forall j {:trigger dists[j]} {:trigger indices[j]} :: 0 <= j < i && j < |r| && j < k ==>
          dists[j] == r[j].dist && indices[j] == r[j].index)
    && (forall j {:trigger dists[j]} {:trigger indices[j]} :: i < j <= |r| && j < k ==>
          dists[j] == r[j - 1].dist && indices[j] == r[j - 1].index)
  }

  lemma AroundStep(d: seq<real>, x: seq<nat>, r: seq<Neighbor>, i: nat, k: nat)
    requires 0 < i <= |r| <= k && Around(d, x, r, i, k)
    ensures i < k ==> Around(d[i := d[i - 1]], x[i := x[i - 1]], r, i - 1, k)
    ensures i >= k ==> Around(d, x, r, i - 1, k)
  {
  }

  lemma NextBelow(d: seq<real>, x: seq<nat>, r: seq<Neighbor>, i: nat, k: nat)
    requires 0 < i <= |r| <= k && Around(d, x, r, i, k)
    ensures d[i - 1] == r[i - 1].dist
  {
  }

  lemma Assembled(dists: seq<real>, indices: seq<nat>, r: seq<Neighbor>, e: Neighbor, i: nat, k: nat)
    requires i <= |r| <= k
    requires |dists| == |indices| == if |r| < k then |r| + 1 else k
    requires Around(dists, indices, r, i, |dists|)
    requires i < k ==> dists[i] == e.dist && indices[i] == e.index
    requires i == 0 || r[i - 1].dist <= e.dist
    requires forall j :: i <= j < |r| ==> r[j].dist > e.dist
    ensures Zip(dists, indices) == Offer(r, e, k)
  {
    InsertSplits(r, e, i);
    var s := r[..i] + [e] + r[i..];
    forall j | 0 <= j < |dists| ensures dists[j] == s[j].dist && indices[j] == s[j].index {
      assert s[j] == if j < i then r[j] else if j == i then e else r[j - 1];
    }
  }

  /** Storing e in the free slot and keeping what fits gives the offered list. */
  lemma StoreAssembles(d: seq<real>, x: seq<nat>, r: seq<Neighbor>, e: Neighbor, i: nat, k: nat)
    requires i <= |r| <= k && Around(d, x, r, i, k)
    requires i == 0 || r[i - 1].dist <= e.dist
    requires forall j :: i <= j < |r| ==> r[j].dist > e.dist
    ensures var n := if |r| < k then |r| + 1 else k;
            var (d', x') := if i < k then (d[i := e.dist], x[i := e.index]) else (d, x);
            Zip(d'[..n], x'[..n]) == Offer(r, e, k)
  {
    var n := if |r| < k then |r| + 1 else k;
    var (d', x') := if i < k then (d[i := e.dist], x[i := e.index]) else (d, x);
    Assembled(d'[..n], x'[..n], r, e, i, k);
  }

  class KnnResultSet {
    const capacity: nat
    const bound: real  // the largest representable distance
    const indices: array<nat>
    const dists: array<real>
    var count: nat

    ghost predicate Valid()
      reads this, dists
    {
      && 1 <= capacity <= dists.Length && capacity <= indices.Length
      && count <= capacity
      && (count < capacity ==> dists[capacity - 1] == bound)
    }

    ghost function Contents(): (r: seq<Neighbor>)
      requires Valid()
      reads this, dists, indices
      ensures |r| == count
    {
      Zip(dists[..count], indices[..count])
    }

    constructor (capacity: nat, bound: real, indices: array<nat>, dists: array<real>)
      requires 1 <= capacity <= dists.Length && capacity <= indices.Length
      modifies dists
      ensures Valid() && Contents() == []
      ensures this.capacity == capacity && this.bound == bound && this.indices == indices && this.dists == dists
    {
      this.capacity, this.bound, this.indices, this.dists := capacity, bound, indices, dists;
      count := 0;
      new;
      dists[capacity - 1] := bound;
    }

    function Full(): bool
      reads this
    {
      count == capacity
    }

    function WorstDist(): (w: real)
      requires Valid()
      reads this, dists, indices
      ensures w == Worst(Contents(), capacity, bound)
    {
      dists[capacity - 1]
    }

    /** Copies the entry below slot i into it, where there is a slot. */
    method ShiftUp(ghost r: seq<Neighbor>, i: nat)
      requires 0 < i <= |r| == count <= capacity <= dists.Length && capacity <= indices.Length
      requires Around(dists[..], indices[..], r, i, capacity)
      modifies dists, indices
      ensures Around(dists[..], indices[..], r, i - 1, capacity)
      ensures forall j :: i < j < dists.Length ==> dists[j] == old(dists[j])
    {
      ghost var d, x := dists[..], indices[..];
      if i < capacity {
        dists[i] := dists[i - 1];
        indices[i] := indices[i - 1];
        assert dists[..] == d[i := d[i - 1]] && indices[..] == x[i := x[i - 1]];
      }
      AroundStep(d, x, r, i, capacity);
    }

    /** Shifts the farther entries of r, the contents, up by one; i is the slot this frees. */
    method MakeRoom(dist: real, ghost r: seq<Neighbor>) returns (i: nat)
      requires Valid() && |r| == count && Around(dists[..], indices[..], r, count, capacity)
      requires Sorted(r)
      modifies dists, indices
      ensures i <= count
      ensures i == 0 || r[i - 1].dist <= dist
      ensures forall j :: i <= j < count ==> r[j].dist > dist
      ensures count < capacity - 1 ==> dists[capacity - 1] == bound
      ensures Around(dists[..], indices[..], r, i, capacity)
    {
      i := count;
      while i > 0 && dists[i - 1] > dist
        invariant 0 <= i <= |r| == count
        invariant count < capacity - 1 ==> dists[capacity - 1] == bound
        invariant forall j :: i <= j < |r| ==> r[j].dist > dist
        invariant Around(dists[..], indices[..], r, i, capacity)
      {
        NextBelow(dists[..], indices[..], r, i, capacity);
        ShiftUp(r, i);
        i := i - 1;
      }
      if i > 0 { NextBelow(dists[..], indices[..], r, i, capacity); }
    }

    /** A point that no longer qualifies falls off the end at once. */
    method AddPoint(dist: real, index: nat)
      requires Valid() && Sorted(Contents())
      modifies this`count, dists, indices
      ensures Valid()
      ensures Contents() == Offer(old(Contents()), Neighbor(dist, index), capacity)
    {
      ghost var r := Contents();
      assert Around(dists[..], indices[..], r, count, capacity);
      var i := MakeRoom(dist, r);
      ghost var d, x := dists[..], indices[..];
      if i < capacity {
        dists[i] := dist;
        indices[i] := index;
        assert dists[..] == d[i := dist] && indices[..] == x[i := index];
      }
      if count < capacity {
        count := count + 1;
      }
      StoreAssembles(d, x, r, Neighbor(dist, index), i, capacity);
      assert dists[..count] == dists[..][..count] && indices[..count] == indices[..][..count];
    }
  }
}
