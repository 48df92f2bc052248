/** Selection of the keyframes that make up the submap. */
module Submaps {
  function Min(a: int, b: int): int { if a <= b then a else b }

  /** The heap keeps at most this many of n entries; compared unsigned, a negative k is no limit. */
  function Capacity(k: int, n: nat): nat { if k < 0 then n else k }

  /** How many entries are strictly below t. */
  function CountLt(s: seq<real>, t: real): nat {
    if s == [] then 0 else CountLt(s[..|s| - 1], t) + if s[|s| - 1] < t then 1 else 0
  }

  /** Fewer than min(k, n) are strictly nearer: position i is among the k nearest, ties included. */
  predicate Near(ds: seq<real>, k: int, i: int)
    requires 0 <= i < |ds|
  {
    CountLt(ds, ds[i]) < Min(Capacity(k, |ds|), |ds|)
  }

  /** The frames at the first n positions that are near, in order. */
  function Picks(ds: seq<real>, k: int, frames: seq<int>, n: nat): seq<int>
    requires n <= |ds| <= |frames|
  {
    if n == 0 then []
    else Picks(ds, k, frames, n - 1) + (if Near(ds, k, n - 1) then [frames[n - 1]] else [])
  }

  ghost predicate Picked(ds: seq<real>, k: int, frames: seq<int>, f: int)
    requires |ds| <= |frames|
  {
    exists i :: 0 <= i < |ds| && Near(ds, k, i) && frames[i] == f
  }

  function Elems(s: seq<int>): set<int> {
    if s == [] then {} else Elems(s[..|s| - 1]) + {s[|s| - 1]}
  }

  lemma ElemsOfSnoc(s: seq<int>, x: int)
    ensures Elems(s + [x]) == Elems(s) + {x}
  {
    assert (s + [x])[..|s|] == s;
  }

  lemma {:induction false} ElemsOfConcat(a: seq<int>, b: seq<int>)
    ensures Elems(a + b) == Elems(a) + Elems(b)
  {
    if b == [] {
      assert a + b == a;
    } else {
      ElemsOfConcat(a, b[..|b| - 1]);
      assert (a + b)[..|a + b| - 1] == a + b[..|b| - 1];
    }
  }

  lemma {:induction false} ElemAt(s: seq<int>, i: int)
    requires 0 <= i < |s|
    ensures s[i] in Elems(s)
  {
    if i < |s| - 1 { ElemAt(s[..|s| - 1], i); }
  }

  lemma {:induction false} ElemsOfPicks(ds: seq<real>, k: int, frames: seq<int>, n: nat, f: int)
    requires n <= |ds| <= |frames|
    ensures f in Elems(Picks(ds, k, frames, n)) <==> exists i :: 0 <= i < n && Near(ds, k, i) && frames[i] == f
  {
    if n > 0 {
      ElemsOfPicks(ds, k, frames, n - 1, f);
      var rest := Picks(ds, k, frames, n - 1);
      if Near(ds, k, n - 1) { ElemsOfSnoc(rest, frames[n - 1]); } else { assert rest + [] == rest; }
    }
  }

  lemma {:induction false} CountBounds(s: seq<real>, t: real)
    ensures CountLt(s, t) <= |s|
    ensures CountLt(s, t) == |s| <==> forall j :: 0 <= j < |s| ==> s[j] < t
  {
    if s != [] {
      CountBounds(s[..|s| - 1], t);
      assert s == s[..|s| - 1] + [s[|s| - 1]];
    }
  }

  lemma {:induction false} CountAppend(a: seq<real>, b: seq<real>, t: real)
    ensures CountLt(a + b, t) == CountLt(a, t) + CountLt(b, t)
  {
    if b == [] {
      assert a + b == a;
    } else {
      CountAppend(a, b[..|b| - 1], t);
      assert (a + b)[..|a + b| - 1] == a + b[..|b| - 1];
    }
  }

  ghost function Below(s: seq<real>, t: real): set<int> { set j | 0 <= j < |s| && s[j] < t }

  lemma {:induction false} CountIsSize(s: seq<real>, t: real)
    ensures CountLt(s, t) == |Below(s, t)|
  {
    if s != [] {
      var front, n := s[..|s| - 1], |s| - 1;
      CountIsSize(front, t);
      assert Below(s, t) == if s[n] < t then Below(front, t) + {n} else Below(front, t);
    }
  }

  /** Position i is among the k nearest: fewer than k are strictly nearer, or k is negative, which
      compares as no limit. */
  ghost predicate AmongNearest(ds: seq<real>, k: int, i: int)
    requires 0 <= i < |ds|
  {
    k < 0 || |Below(ds, ds[i])| < k
  }

  lemma NearIsExact(ds: seq<real>, k: int, i: int)
    requires 0 <= i < |ds|
    ensures Near(ds, k, i) <==> AmongNearest(ds, k, i)
  {
    CountBounds(ds, ds[i]);
    CountIsSize(ds, ds[i]);
  }

  lemma {:induction false} ElemsAreMembers(s: seq<int>, x: int)
    ensures x in Elems(s) <==> x in s
  {
    if s != [] {
      ElemsAreMembers(s[..|s| - 1], x);
      assert s == s[..|s| - 1] + [s[|s| - 1]];
    }
  }

  // ---- The bounded max-heap ----

  /** The position of a greatest entry. */
  function Top(pq: seq<real>): (p: int)
    requires pq != []
    ensures 0 <= p < |pq| && forall j :: 0 <= j < |pq| ==> pq[j] <= pq[p]
  {
    if |pq| == 1 then 0
    else
      var p := Top(pq[..|pq| - 1]);
      if pq[|pq| - 1] > pq[p] then |pq| - 1 else p
  }

  function Pop(pq: seq<real>): seq<real>
    requires pq != []
  {
    pq[..Top(pq)] + pq[Top(pq) + 1..]
  }

  /** Popping lowers exactly the counts that covered the whole heap. */
  lemma PopCounts(pq: seq<real>, t: real)
    requires pq != []
    ensures CountLt(Pop(pq), t) == Min(|pq| - 1, CountLt(pq, t))
  {
    var p := Top(pq);
    assert pq == pq[..p] + ([pq[p]] + pq[p + 1..]);
    CountAppend(pq[..p], [pq[p]] + pq[p + 1..], t);
    CountAppend([pq[p]], pq[p + 1..], t);
    CountAppend(pq[..p], pq[p + 1..], t);
    assert [pq[p]][..0] == [];
    CountBounds(pq, t);
  }

  /** The heap counts like the distances seen so far, up to its capacity: it holds the smallest. */
  ghost predicate Holds(pq: seq<real>, seen: seq<real>, cap: nat) {
    && |pq| == Min(cap, |seen|)
    && forall t :: CountLt(pq, t) == Min(cap, CountLt(seen, t))
  }

  lemma PushHolds(pq: seq<real>, seen: seq<real>, cap: nat, d: real)
    requires Holds(pq, seen, cap) && |pq| < cap
    ensures Holds(pq + [d], seen + [d], cap)
  {
    forall t ensures CountLt(pq + [d], t) == Min(cap, CountLt(seen + [d], t)) {
      CountAppend(pq, [d], t);
      CountAppend(seen, [d], t);
      CountBounds(pq, t);
      CountBounds([d], t);
      CountBounds(seen, t);
    }
  }

  lemma ReplaceHolds(pq: seq<real>, seen: seq<real>, cap: nat, d: real)
    requires Holds(pq, seen, cap) && |pq| == cap
    ensures Holds(Pop(pq + [d]), seen + [d], cap)
  {
    forall t ensures CountLt(Pop(pq + [d]), t) == Min(cap, CountLt(seen + [d], t)) {
      PopCounts(pq + [d], t);
      CountAppend(pq, [d], t);
      CountAppend(seen, [d], t);
    }
  }

  lemma SkipHolds(pq: seq<real>, seen: seq<real>, cap: nat, d: real)
    requires Holds(pq, seen, cap) && |pq| == cap > 0 && pq[Top(pq)] <= d
    ensures Holds(pq, seen + [d], cap)
  {
    forall t ensures CountLt(pq, t) == Min(cap, CountLt(seen + [d], t)) {
      CountAppend(seen, [d], t);
      CountBounds(pq, t);
      CountBounds([d], t);
    }
  }

  /** The top of the full heap separates the near positions from the others. */
  lemma TopSeparates(pq: seq<real>, ds: seq<real>, k: int, i: int)
    requires k != 0 && 0 <= i < |ds| && pq != [] && Holds(pq, ds, Capacity(k, |ds|))
    ensures ds[i] <= pq[Top(pq)] <==> Near(ds, k, i)
  {
    CountBounds(pq, ds[i]);
    CountBounds(ds, ds[i]);
  }

  // ---- The three selections ----

  function AllFrames(n: nat): seq<int> { seq(n, i => i) }

  /** Distances of a list of keyframes. */
  function DistsOf(ds: seq<real>, frames: seq<int>): (r: seq<real>)
    requires forall j :: 0 <= j < |frames| ==> 0 <= frames[j] < |ds|
    ensures |r| == |frames|
  {
    seq(|frames|, j requires 0 <= j < |frames| => ds[frames[j]])
  }

  /** Keyframe f is among the nearest of all keyframes, of the convex hull or of the concave hull. */
  ghost predicate InSubmap(ds: seq<real>, kNn: int, convex: seq<int>, kCv: int, concave: seq<int>, kCc: int, f: int)
    requires forall j :: 0 <= j < |convex| ==> 0 <= convex[j] < |ds|
    requires forall j :: 0 <= j < |concave| ==> 0 <= concave[j] < |ds|
  {
    || (0 <= f < |ds| && Near(ds, kNn, f))
    || Picked(DistsOf(ds, convex), kCv, convex, f)
    || Picked(DistsOf(ds, concave), kCc, concave, f)
  }

  /** Keyframe f is a hull frame with fewer than k hull frames strictly nearer to the robot. */
  ghost predicate NearestOfHull(ds: seq<real>, hull: seq<int>, k: int, f: int)
    requires forall j :: 0 <= j < |hull| ==> 0 <= hull[j] < |ds|
  {
    f in hull && (k < 0 || |NearerInHull(ds, hull, f)| < k)
  }

  ghost function NearerInHull(ds: seq<real>, hull: seq<int>, f: int): set<int>
    requires (forall j :: 0 <= j < |hull| ==> 0 <= hull[j] < |ds|) && f in hull
  {
    set l | 0 <= l < |hull| && ds[hull[l]] < ds[f]
  }

  lemma HullIsExact(ds: seq<real>, hull: seq<int>, k: int, f: int)
    requires forall j :: 0 <= j < |hull| ==> 0 <= hull[j] < |ds|
    ensures Picked(DistsOf(ds, hull), k, hull, f) <==> NearestOfHull(ds, hull, k, f)
  {
    var r := DistsOf(ds, hull);
    forall j | 0 <= j < |hull| && hull[j] == f ensures Near(r, k, j) <==> NearestOfHull(ds, hull, k, f) {
      NearIsExact(r, k, j);
      assert Below(r, r[j]) == NearerInHull(ds, hull, f);
    }
    if NearestOfHull(ds, hull, k, f) {
      var j :| 0 <= j < |hull| && hull[j] == f;
      assert Near(r, k, j);
    }
  }

  /** Membership in the submap by distance alone. */
  lemma SubmapByDistance(ds: seq<real>, kNn: int, convex: seq<int>, kCv: int, concave: seq<int>, kCc: int, f: int)
    requires forall j :: 0 <= j < |convex| ==> 0 <= convex[j] < |ds|
    requires forall j :: 0 <= j < |concave| ==> 0 <= concave[j] < |ds|
    ensures InSubmap(ds, kNn, convex, kCv, concave, kCc, f) <==>
            || (0 <= f < |ds| && AmongNearest(ds, kNn, f))
            || NearestOfHull(ds, convex, kCv, f)
            || NearestOfHull(ds, concave, kCc, f)
  {
    if 0 <= f < |ds| { NearIsExact(ds, kNn, f); }
    HullIsExact(ds, convex, kCv, f);
    HullIsExact(ds, concave, kCc, f);
  }

  lemma ListedInSubmap(ds: seq<real>, kNn: int, convex: seq<int>, kCv: int, concave: seq<int>, kCc: int, f: int)
    requires forall j :: 0 <= j < |convex| ==> 0 <= convex[j] < |ds|
    requires forall j :: 0 <= j < |concave| ==> 0 <= concave[j] < |ds|
    ensures f in Elems(Picks(ds, kNn, AllFrames(|ds|), |ds|)
                       + Picks(DistsOf(ds, convex), kCv, convex, |convex|)
                       + Picks(DistsOf(ds, concave), kCc, concave, |concave|))
            <==> InSubmap(ds, kNn, convex, kCv, concave, kCc, f)
  {
    var nn, cv, cc := Picks(ds, kNn, AllFrames(|ds|), |ds|), Picks(DistsOf(ds, convex), kCv, convex, |convex|),
                      Picks(DistsOf(ds, concave), kCc, concave, |concave|);
    ElemsOfConcat(nn + cv, cc);
    ElemsOfConcat(nn, cv);
    ElemsOfPicks(ds, kNn, AllFrames(|ds|), |ds|, f);
    ElemsOfPicks(DistsOf(ds, convex), kCv, convex, |convex|, f);
    ElemsOfPicks(DistsOf(ds, concave), kCc, concave, |concave|, f);
  }

  lemma AllListed(ds: seq<real>, kNn: int, convex: seq<int>, kCv: int, concave: seq<int>, kCc: int, listed: seq<int>)
    requires forall j :: 0 <= j < |convex| ==> 0 <= convex[j] < |ds|
    requires forall j :: 0 <= j < |concave| ==> 0 <= concave[j] < |ds|
    requires listed == Picks(ds, kNn, AllFrames(|ds|), |ds|)
                       + Picks(DistsOf(ds, convex), kCv, convex, |convex|)
                       + Picks(DistsOf(ds, concave), kCc, concave, |concave|)
    ensures forall f :: f in Elems(listed) <==> InSubmap(ds, kNn, convex, kCv, concave, kCc, f)
  {
    forall f ensures f in Elems(listed) <==> InSubmap(ds, kNn, convex, kCv, concave, kCc, f) {
      ListedInSubmap(ds, kNn, convex, kCv, concave, kCc, f);
    }
  }

  // ---- Index lists ----

  predicate StrictlyIncreasing(s: seq<int>) { forall i, j :: 0 <= i < j < |s| ==> s[i] < s[j] }

  predicate Sorted(s: seq<int>) { forall i, j :: 0 <= i < j < |s| ==> s[i] <= s[j] }

  function Insert(x: int, s: seq<int>): seq<int> {
    if s == [] || s[|s| - 1] <= x then s + [x] else Insert(x, s[..|s| - 1]) + [s[|s| - 1]]
  }

  function Sort(s: seq<int>): seq<int> {
    if s == [] then [] else Insert(s[|s| - 1], Sort(s[..|s| - 1]))
  }

  lemma {:induction false} InsertSorts(x: int, s: seq<int>)
    requires Sorted(s)
    ensures Sorted(Insert(x, s)) && Elems(Insert(x, s)) == Elems(s) + {x}
  {
    if s != [] && s[|s| - 1] > x {
      var t, m := s[..|s| - 1], s[|s| - 1];
      InsertSorts(x, t);
      var r := Insert(x, t);
      ElemsOfSnoc(r, m);
      LastIsGreatest(s);
      assert Elems(s) == Elems(t) + {m};
      forall y | y in Elems(r) ensures y <= m { assert y == x || y in Elems(s); }
      SortedSnoc(r, m);
    } else {
      ElemsOfSnoc(s, x);
    }
  }

  lemma SortedSnoc(s: seq<int>, m: int)
    requires Sorted(s) && forall x :: x in Elems(s) ==> x <= m
    ensures Sorted(s + [m])
  {
    forall i | 0 <= i < |s| ensures s[i] <= m { ElemAt(s, i); }
  }

  lemma StrictSnoc(s: seq<int>, m: int)
    requires StrictlyIncreasing(s) && s != [] && s[|s| - 1] < m
    ensures StrictlyIncreasing(s + [m])
  {
  }

  lemma {:induction false} SortSorts(s: seq<int>)
    ensures Sorted(Sort(s)) && Elems(Sort(s)) == Elems(s)
  {
    if s != [] {
      SortSorts(s[..|s| - 1]);
      InsertSorts(s[|s| - 1], Sort(s[..|s| - 1]));
    }
  }

  lemma {:induction false} LastIsGreatest(s: seq<int>)
    requires Sorted(s) && s != []
    ensures forall x :: x in Elems(s) ==> x <= s[|s| - 1]
  {
    if |s| > 1 { LastIsGreatest(s[..|s| - 1]); }
  }

  lemma {:induction false} SortKeepsSorted(s: seq<int>)
    requires Sorted(s)
    ensures Sort(s) == s
  {
    if s != [] {
      var t, x := s[..|s| - 1], s[|s| - 1];
      SortKeepsSorted(t);
      assert s == t + [x];
      assert t != [] ==> t[|t| - 1] <= x;
    }
  }

  /** Drops every entry equal to its predecessor. */
  function Unique(s: seq<int>): (r: seq<int>)
    ensures (r == [] <==> s == []) && (s != [] ==> r[|r| - 1] == s[|s| - 1])
  {
    if |s| <= 1 then s
    else
      var r := Unique(s[..|s| - 1]);
      if s[|s| - 1] == s[|s| - 2] then r else r + [s[|s| - 1]]
  }

  lemma {:induction false} UniqueOfSorted(s: seq<int>)
    requires Sorted(s)
    ensures StrictlyIncreasing(Unique(s)) && Elems(Unique(s)) == Elems(s)
  {
    if |s| > 1 {
      var t, x := s[..|s| - 1], s[|s| - 1];
      UniqueOfSorted(t);
      ElemsOfSnoc(Unique(t), x);
      if t[|t| - 1] == x { ElemAt(t, |t| - 1); } else { StrictSnoc(Unique(t), x); }
    }
  }

  /** A strictly increasing list is determined by its elements. */
  lemma {:induction false} SetDetermines(a: seq<int>, b: seq<int>)
    requires StrictlyIncreasing(a) && StrictlyIncreasing(b) && Elems(a) == Elems(b)
    ensures a == b
  {
    if a != [] && b != [] {
      var a', b', m, l := a[..|a| - 1], b[..|b| - 1], a[|a| - 1], b[|b| - 1];
      LastIsGreatest(a);
      LastIsGreatest(b);
      assert m in Elems(a) && l in Elems(b);
      LastIsNew(a);
      LastIsNew(b);
      assert Elems(a') == Elems(a) - {m} && Elems(b') == Elems(b) - {l};
      SetDetermines(a', b');
      assert a == a' + [m] && b == b' + [l];
    }
  }

  lemma LastIsNew(s: seq<int>)
    requires StrictlyIncreasing(s) && s != []
    ensures s[|s| - 1] !in Elems(s[..|s| - 1])
  {
    if |s| > 1 { LastIsGreatest(s[..|s| - 1]); }
  }

  lemma UniqueSort(listed: seq<int>, prev: seq<int>)
    requires StrictlyIncreasing(prev)
    ensures var curr := Unique(Sort(listed));
            StrictlyIncreasing(curr) && Elems(curr) == Elems(listed) && (Elems(curr) == Elems(prev) <==> curr == prev)
  {
    SortSorts(listed);
    UniqueOfSorted(Sort(listed));
    var curr := Unique(Sort(listed));
    if Elems(curr) == Elems(prev) { SetDetermines(curr, prev); }
  }

  // ---- The node's submap fields ----

  class SubmapBuilder {
    var curr: seq<int>
    var prev: seq<int>
    var hasChanged: bool

    ghost predicate Valid() reads this { StrictlyIncreasing(prev) }

    constructor ()
      ensures Valid() && prev == [] && hasChanged
    {
      curr, prev, hasChanged := [], [], true;
    }

    /** Appends exactly the frames among the k nearest, ties at the k-th distance included. */
    method PushSubmapIndices(dists: seq<real>, k: int, frames: seq<int>)
      requires (k != 0 || dists == []) && |dists| <= |frames|
      modifies `curr
      ensures curr == old(curr) + Picks(dists, k, frames, |dists|)
    {
      if dists == [] { return; }
      var kth := KthDistance(dists, k);
      var i := 0;
      while i < |dists|
        invariant 0 <= i <= |dists| && curr == old(curr) + Picks(dists, k, frames, i)
      {
        if dists[i] <= kth { curr := curr + [frames[i]]; }
        i := i + 1;
      }
    }

    /** The top of a max-heap bounded by k entries, after all distances have gone through it. */
    method KthDistance(dists: seq<real>, k: int) returns (kth: real)
      requires k != 0 && dists != []
      ensures forall i :: 0 <= i < |dists| ==> (dists[i] <= kth <==> Near(dists, k, i))
    {
      var pq: seq<real> := [];
      ghost var cap := Capacity(k, |dists|);
      var n := 0;
      while n < |dists|
        invariant 0 <= n <= |dists| && Holds(pq, dists[..n], cap)
      {
        var d := dists[n];
        assert dists[..n + 1] == dists[..n] + [d];
        if k > 0 && |pq| >= k && pq[Top(pq)] > d {
          ReplaceHolds(pq, dists[..n], cap, d);
          pq := Pop(pq + [d]);
        } else if k < 0 || |pq| < k {
          PushHolds(pq, dists[..n], cap, d);
          pq := pq + [d];
        } else {
          SkipHolds(pq, dists[..n], cap, d);
        }
        n := n + 1;
      }
      assert dists[..n] == dists;
      kth := pq[Top(pq)];
      forall i | 0 <= i < |dists| ensures dists[i] <= kth <==> Near(dists, k, i) { TopSeparates(pq, dists, k, i); }
    }

    /** The submap is the strictly increasing union of the three selections, and the change flag is
        raised exactly when that set of keyframes differs from the previous one. */
    method BuildSubmap(ds: seq<real>, kNn: int, convex: seq<int>, kCv: int, concave: seq<int>, kCc: int)
      requires Valid() && (kNn != 0 || ds == []) && (kCv != 0 || convex == []) && (kCc != 0 || concave == [])
      requires forall j :: 0 <= j < |convex| ==> 0 <= convex[j] < |ds|
      requires forall j :: 0 <= j < |concave| ==> 0 <= concave[j] < |ds|
      modifies this
      ensures Valid() && StrictlyIncreasing(curr) && prev == curr
      ensures forall f :: f in Elems(curr) <==> InSubmap(ds, kNn, convex, kCv, concave, kCc, f)
      ensures hasChanged <==> old(hasChanged) || Elems(curr) != Elems(old(prev))
    {
      curr := [];
      PushSubmapIndices(ds, kNn, AllFrames(|ds|));
      PushSubmapIndices(DistsOf(ds, convex), kCv, convex);
      PushSubmapIndices(DistsOf(ds, concave), kCc, concave);
      ghost var listed := curr;
      assert listed == Picks(ds, kNn, AllFrames(|ds|), |ds|)
                       + Picks(DistsOf(ds, convex), kCv, convex, |convex|)
                       + Picks(DistsOf(ds, concave), kCc, concave, |concave|);
      AllListed(ds, kNn, convex, kCv, concave, kCc, listed);
      SortKeepsSorted(old(prev));
      UniqueSort(listed, prev);
      curr, prev := Unique(Sort(curr)), Sort(prev);
      if curr != prev {
        hasChanged := true;
        prev := curr;
      }
    }
  }
}
