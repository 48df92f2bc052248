/** The bounded, sorted candidate list of a nearest-neighbour query, as a value:
    what one offer does to it, what it means to answer a query over a set of
    indices, and why exact answers agree with a full sort. */
module Nearest {

  datatype Neighbor = Neighbor(dist: real, index: nat)

  ghost predicate Sorted(r: seq<Neighbor>) {
    forall i, j :: 0 <= i < j < |r| ==> r[i].dist <= r[j].dist
  }

  ghost predicate Distinct(r: seq<Neighbor>) {
    forall i, j :: 0 <= i < j < |r| ==> r[i].index != r[j].index
  }

  ghost predicate Has(r: seq<Neighbor>, x: nat) {
    exists i :: 0 <= i < |r| && r[i].index == x
  }

  /** Every entry names a seen index with its true distance, below the bound. */
  ghost predicate Genuine(r: seq<Neighbor>, bound: real, ds: seq<real>, seen: set<nat>) {
    forall i :: 0 <= i < |r| ==>
                  r[i].index in seen && r[i].index < |ds| && r[i].dist == ds[r[i].index] && r[i].dist < bound
  }

  ghost predicate Scales(scaled: seq<real>, ds: seq<real>) {
    |scaled| == |ds| && forall x :: 0 <= x < |ds| ==> scaled[x] >= ds[x]
  }

  /** Insertion behind every entry that is not farther: ties keep their order of arrival. */
  function Insert(r: seq<Neighbor>, e: Neighbor): seq<Neighbor> {
    if |r| > 0 && r[|r| - 1].dist > e.dist
    then Insert(r[..|r| - 1], e) + [r[|r| - 1]]
    else r + [e]
  }

  function Truncate(r: seq<Neighbor>, k: nat): seq<Neighbor> {
    if |r| <= k then r else r[..k]
  }

  /** One offer to a list of capacity k. */
  function Offer(r: seq<Neighbor>, e: Neighbor, k: nat): seq<Neighbor> {
    Truncate(Insert(r, e), k)
  }

  /** The distance a newcomer has to beat. */
  function Worst(r: seq<Neighbor>, k: nat, bound: real): real
    requires k >= 1
  {
    if |r| == k then r[k - 1].dist else bound
  }

  /** r answers the k-nearest query over the indices in seen: real, distinct, sorted
      entries below the bound, and whatever is left out loses to the worst entry
      by its scaled distance. With scaled == ds the answer is exact. */
  ghost predicate Answers(r: seq<Neighbor>, k: nat, bound: real, scaled: seq<real>, ds: seq<real>, seen: set<nat>)
    requires k >= 1 && |scaled| == |ds|
  {
    && |r| <= k
    && Sorted(r)
    && Distinct(r)
    && Genuine(r, bound, ds, seen)
    && (forall x :: x in seen && x < |ds| && !Has(r, x) ==> scaled[x] >= Worst(r, k, bound))
  }

  lemma {:induction false} InsertSplits(r: seq<Neighbor>, e: Neighbor, i: nat)
    requires i <= |r|
    requires i == 0 || r[i - 1].dist <= e.dist
    requires forall j :: i <= j < |r| ==> r[j].dist > e.dist
    ensures Insert(r, e) == r[..i] + [e] + r[i..]
  {
    if i < |r| {
      var s := r[..|r| - 1];
      InsertSplits(s, e, i);
      assert s[..i] == r[..i];
      assert r[i..] == s[i..] + [r[|r| - 1]];
    } else {
      assert r[..i] == r && r[i..] == [];
    }
  }

  /** s is r with e put in at rank p, behind everything not farther. */
  ghost predicate Landed(s: seq<Neighbor>, r: seq<Neighbor>, e: Neighbor, p: nat) {
    && p <= |r|
    && s == r[..p] + [e] + r[p..]
    && (forall j :: 0 <= j < p ==> r[j].dist <= e.dist)
    && (forall j :: p <= j < |r| ==> r[j].dist > e.dist)
  }

  /** Where an insertion lands in a sorted list. */
  lemma InsertLands(r: seq<Neighbor>, e: Neighbor) returns (p: nat)
    requires Sorted(r)
    ensures Landed(Insert(r, e), r, e, p)
  {
    p := |r|;
    while p > 0 && r[p - 1].dist > e.dist
      invariant 0 <= p <= |r|
      invariant forall j :: p <= j < |r| ==> r[j].dist > e.dist
    {
      p := p - 1;
    }
    InsertSplits(r, e, p);
  }

  lemma LandedHas(s: seq<Neighbor>, r: seq<Neighbor>, e: Neighbor, p: nat, x: nat)
    requires Landed(s, r, e, p)
    ensures Has(s, x) <==> x == e.index || Has(r, x)
  {
    if Has(r, x) {
      var j :| 0 <= j < |r| && r[j].index == x;
      assert s[if j < p then j else j + 1].index == x;
    }
    if x == e.index { assert s[p].index == x; }
    if Has(s, x) && x != e.index {
      var j :| 0 <= j < |s| && s[j].index == x;
      assert r[if j < p then j else j - 1].index == x;
    }
  }

  lemma LandedOrder(s: seq<Neighbor>, r: seq<Neighbor>, e: Neighbor, p: nat)
    requires Landed(s, r, e, p) && Sorted(r) && Distinct(r) && !Has(r, e.index)
    ensures Sorted(s) && Distinct(s)
  {
    forall i, j | 0 <= i < j < |s| ensures s[i].dist <= s[j].dist && s[i].index != s[j].index {
      assert s[i] == if i < p then r[i] else if i == p then e else r[i - 1];
      assert s[j] == if j < p then r[j] else if j == p then e else r[j - 1];
    }
  }

  lemma LandedGenuine(s: seq<Neighbor>, r: seq<Neighbor>, e: Neighbor, p: nat, bound: real, ds: seq<real>, seen: set<nat>)
    requires Landed(s, r, e, p) && Genuine(r, bound, ds, seen)
    requires e.index < |ds| && e.dist == ds[e.index] < bound
    ensures Genuine(s, bound, ds, seen + {e.index})
  {
    forall i | 0 <= i < |s| ensures s[i] == e || s[i] in r {
      assert s[i] == if i < p then r[i] else if i == p then e else r[i - 1];
    }
  }

  /** What an offer leaves out loses to the new worst entry. */
  lemma LandedLeavesOut(s: seq<Neighbor>, r: seq<Neighbor>, e: Neighbor, p: nat, k: nat, bound: real, ds: seq<real>, y: nat)
    requires k >= 1 && |r| <= k && Landed(s, r, e, p) && Sorted(s)
    requires Genuine(s, bound, ds, Indices(s))
    requires y < |ds| && Has(s, y) && !Has(Truncate(s, k), y)
    ensures ds[y] >= Worst(Truncate(s, k), k, bound)
  {
    var o := Truncate(s, k);
    var j :| 0 <= j < |s| && s[j].index == y;
    assert forall m :: 0 <= m < |o| ==> o[m].index != y && o[m] == s[m];
    assert j >= k && |o| == k;
  }

  lemma LandedWorst(s: seq<Neighbor>, r: seq<Neighbor>, e: Neighbor, p: nat, k: nat, bound: real)
    requires k >= 1 && |r| <= k && Landed(s, r, e, p) && e.dist < bound && Sorted(r)
    requires forall i :: 0 <= i < |r| ==> r[i].dist < bound
    ensures Worst(Truncate(s, k), k, bound) <= Worst(r, k, bound)
  {
    assert |s| >= k ==> s[k - 1] == if k - 1 < p then r[k - 1] else if k - 1 == p then e else r[k - 2];
  }

  /** An offer keeps the list an answer, now over one more index; the value to beat never grows. */
  lemma OfferAnswers(r: seq<Neighbor>, k: nat, bound: real, scaled: seq<real>, ds: seq<real>, seen: set<nat>, x: nat)
    requires k >= 1 && Scales(scaled, ds)
    requires Answers(r, k, bound, scaled, ds, seen)
    requires x < |ds| && x !in seen && ds[x] < bound
    ensures Answers(Offer(r, Neighbor(ds[x], x), k), k, bound, scaled, ds, seen + {x})
    ensures Worst(Offer(r, Neighbor(ds[x], x), k), k, bound) <= Worst(r, k, bound)
  {
    var p := InsertLands(r, Neighbor(ds[x], x));
    LandedAnswers(Insert(r, Neighbor(ds[x], x)), r, p, k, bound, scaled, ds, seen, x);
  }

  lemma LandedAnswers(s: seq<Neighbor>, r: seq<Neighbor>, p: nat, k: nat, bound: real, scaled: seq<real>, ds: seq<real>,
                      seen: set<nat>, x: nat)
    requires k >= 1 && Scales(scaled, ds)
    requires Answers(r, k, bound, scaled, ds, seen)
    requires x < |ds| && x !in seen && ds[x] < bound
    requires Landed(s, r, Neighbor(ds[x], x), p)
    ensures Answers(Truncate(s, k), k, bound, scaled, ds, seen + {x})
    ensures Worst(Truncate(s, k), k, bound) <= Worst(r, k, bound)
  {
    var e, o := Neighbor(ds[x], x), Truncate(s, k);
    LandedOrder(s, r, e, p);
    LandedGenuine(s, r, e, p, bound, ds, seen);
    LandedWorst(s, r, e, p, k, bound);
    forall y | y in seen + {x} && y < |ds| && !Has(o, y)
      ensures scaled[y] >= Worst(o, k, bound)
    {
      LandedHas(s, r, e, p, y);
      if Has(s, y) {
        LandedLeavesOut(s, r, e, p, k, bound, ds, y);
      }
    }
  }

  /** Passing over indices that lose to the worst entry keeps the list an answer. */
  lemma PassOver(r: seq<Neighbor>, k: nat, bound: real, scaled: seq<real>, ds: seq<real>, seen: set<nat>, more: set<nat>)
    requires k >= 1 && |scaled| == |ds|
    requires Answers(r, k, bound, scaled, ds, seen)
    requires forall y :: y in more && y < |ds| ==> scaled[y] >= Worst(r, k, bound)
    ensures Answers(r, k, bound, scaled, ds, seen + more)
  {
  }

  function Dists(r: seq<Neighbor>): (d: seq<real>)
    ensures |d| == |r| && forall i :: 0 <= i < |r| ==> d[i] == r[i].dist
  {
    seq(|r|, i requires 0 <= i < |r| => r[i].dist)
  }

  ghost function Indices(r: seq<Neighbor>): set<nat> {
    set i | 0 <= i < |r| :: r[i].index
  }

  lemma {:induction false} IndicesCount(r: seq<Neighbor>)
    requires Distinct(r)
    ensures |Indices(r)| == |r|
  {
    if |r| > 0 {
      var s := r[..|r| - 1];
      IndicesCount(s);
      assert Indices(r) == Indices(s) + {r[|r| - 1].index};
    } else {
      assert Indices(r) == {};
    }
  }

  /** Two exact answers over the same indices: the first cannot be longer ... */
  lemma ExactNotLonger(r: seq<Neighbor>, s: seq<Neighbor>, k: nat, bound: real, ds: seq<real>, seen: set<nat>)
    requires k >= 1
    requires Answers(r, k, bound, ds, ds, seen) && Answers(s, k, bound, ds, ds, seen)
    ensures |r| <= |s|
  {
    if |s| < |r| {
      forall i | 0 <= i < |r| ensures r[i].index in Indices(s) {
        assert Has(s, r[i].index);
      }
      Pigeonhole(r, s);
    }
  }

  lemma Pigeonhole(r: seq<Neighbor>, s: seq<Neighbor>)
    requires Distinct(r)
    requires forall i :: 0 <= i < |r| ==> r[i].index in Indices(s)
    ensures |r| <= |s|
  {
    IndicesCount(r);
    InjectsInto(Indices(r), s);
  }

  lemma {:induction false} InjectsInto(xs: set<nat>, s: seq<Neighbor>)
    requires forall x :: x in xs ==> x in Indices(s)
    ensures |xs| <= |s|
  {
    if |s| == 0 {
      assert Indices(s) == {};
      assert xs == {};
    } else {
      var t := s[..|s| - 1];
      var last := s[|s| - 1].index;
      forall x | x in xs - {last} ensures x in Indices(t) {
        var i :| 0 <= i < |s| && s[i].index == x;
        assert t[i].index == x;
      }
      InjectsInto(xs - {last}, t);
    }
  }

  /** ... and no entry of it can be nearer than the entry of the other at the same rank. */
  lemma ExactNotNearer(r: seq<Neighbor>, s: seq<Neighbor>, k: nat, bound: real, ds: seq<real>, seen: set<nat>, j: nat)
    requires k >= 1
    requires Answers(r, k, bound, ds, ds, seen) && Answers(s, k, bound, ds, ds, seen)
    requires j < |r| && j < |s|
    ensures r[j].dist >= s[j].dist
  {
    if r[j].dist < s[j].dist {
      var front, cut := r[..j + 1], s[..j];
      forall i | 0 <= i < |front| ensures front[i].index in Indices(cut) {
        assert front[i].dist <= r[j].dist < s[j].dist <= Worst(s, k, bound);
        assert Has(s, front[i].index);
        var m :| 0 <= m < |s| && s[m].index == front[i].index;
        assert s[m].dist < s[j].dist;
        assert cut[m].index == front[i].index;
      }
      Pigeonhole(front, cut);
    }
  }

  /** All exact answers over the same indices list the same distances. */
  lemma ExactAnswersAgree(r: seq<Neighbor>, s: seq<Neighbor>, k: nat, bound: real, ds: seq<real>, seen: set<nat>)
    requires k >= 1
    requires Answers(r, k, bound, ds, ds, seen) && Answers(s, k, bound, ds, ds, seen)
    ensures Dists(r) == Dists(s)
  {
    ExactNotLonger(r, s, k, bound, ds, seen);
    ExactNotLonger(s, r, k, bound, ds, seen);
    forall j | 0 <= j < |r| ensures r[j].dist == s[j].dist {
      ExactNotNearer(r, s, k, bound, ds, seen, j);
      ExactNotNearer(s, r, k, bound, ds, seen, j);
    }
  }

  /** The reference: every distance below the bound, fully sorted. */
  function SortAll(ds: seq<real>, bound: real): seq<Neighbor> {
    if |ds| == 0 then []
    else
      var n := |ds| - 1;
      var rest := SortAll(ds[..n], bound);
      if ds[n] < bound then Insert(rest, Neighbor(ds[n], n)) else rest
  }

  function BruteForce(ds: seq<real>, k: nat, bound: real): seq<Neighbor> {
    Truncate(SortAll(ds, bound), k)
  }

  ghost function Below(n: nat): (s: set<nat>)
    ensures forall x: nat :: x in s <==> x < n
  {
    if n == 0 then {} else Below(n - 1) + {n - 1}
  }

  /** s lists every distance below the bound, fully sorted. */
  ghost predicate ListsAll(s: seq<Neighbor>, bound: real, ds: seq<real>) {
    && Sorted(s) && Distinct(s) && Genuine(s, bound, ds, Below(|ds|))
    && forall x: nat :: x < |ds| ==> (Has(s, x) <==> ds[x] < bound)
  }

  lemma {:induction false} SortAllSorts(ds: seq<real>, bound: real)
    ensures ListsAll(SortAll(ds, bound), bound, ds)
  {
    if |ds| > 0 {
      var n := |ds| - 1;
      var rest := SortAll(ds[..n], bound);
      SortAllSorts(ds[..n], bound);
      FrontListed(rest, bound, ds, n);
      if ds[n] < bound {
        var e := Neighbor(ds[n], n);
        var p := InsertLands(rest, e);
        SortNext(Insert(rest, e), rest, e, p, bound, ds);
      } else {
        NothingNew(rest, bound, ds);
      }
    }
  }

  /** s lists the first n of the distances below the bound. */
  ghost predicate ListsFront(s: seq<Neighbor>, bound: real, ds: seq<real>, n: nat) {
    && n <= |ds| && Sorted(s) && Distinct(s) && Genuine(s, bound, ds, Below(n))
    && forall x: nat :: x < n ==> (Has(s, x) <==> ds[x] < bound)
  }

  lemma FrontListed(rest: seq<Neighbor>, bound: real, ds: seq<real>, n: nat)
    requires n <= |ds| && ListsAll(rest, bound, ds[..n])
    ensures ListsFront(rest, bound, ds, n)
  {
    forall i | 0 <= i < |rest| ensures rest[i].dist == ds[rest[i].index] {
      assert rest[i].dist == ds[..n][rest[i].index];
    }
    forall x: nat | x < n ensures Has(rest, x) <==> ds[x] < bound {
      assert ds[..n][x] == ds[x];
    }
  }

  lemma NothingNew(rest: seq<Neighbor>, bound: real, ds: seq<real>)
    requires |ds| > 0 && ListsFront(rest, bound, ds, |ds| - 1) && ds[|ds| - 1] >= bound
    ensures ListsAll(rest, bound, ds)
  {
  }

  lemma SortNext(s: seq<Neighbor>, rest: seq<Neighbor>, e: Neighbor, p: nat, bound: real, ds: seq<real>)
    requires |ds| > 0 && e.index == |ds| - 1 && e.dist == ds[e.index] < bound
    requires Landed(s, rest, e, p) && ListsFront(rest, bound, ds, e.index)
    ensures ListsAll(s, bound, ds)
  {
    LandedOrder(s, rest, e, p);
    LandedGenuine(s, rest, e, p, bound, ds, Below(e.index));
    forall x: nat | x < |ds| ensures Has(s, x) <==> ds[x] < bound {
      LandedHas(s, rest, e, p, x);
    }
  }

  /** The k smallest of the full sort are an exact answer. */
  lemma BruteForceAnswers(ds: seq<real>, k: nat, bound: real)
    requires k >= 1
    ensures Answers(BruteForce(ds, k, bound), k, bound, ds, ds, Below(|ds|))
  {
    SortAllSorts(ds, bound);
    CutAnswers(SortAll(ds, bound), k, bound, ds);
  }

  lemma CutAnswers(all: seq<Neighbor>, k: nat, bound: real, ds: seq<real>)
    requires k >= 1 && ListsAll(all, bound, ds)
    ensures Answers(Truncate(all, k), k, bound, ds, ds, Below(|ds|))
  {
    forall x | x in Below(|ds|) && !Has(Truncate(all, k), x) ensures ds[x] >= Worst(Truncate(all, k), k, bound) {
      CutLeavesOut(all, k, bound, ds, x);
    }
  }

  lemma CutLeavesOut(all: seq<Neighbor>, k: nat, bound: real, ds: seq<real>, x: nat)
    requires k >= 1 && Sorted(all) && Genuine(all, bound, ds, Below(|ds|)) && x < |ds|
    requires (Has(all, x) <==> ds[x] < bound) && !Has(Truncate(all, k), x)
    ensures ds[x] >= Worst(Truncate(all, k), k, bound)
  {
    var r := Truncate(all, k);
    if ds[x] < bound {
      var j :| 0 <= j < |all| && all[j].index == x;
      assert forall m :: 0 <= m < |r| ==> r[m] == all[m] && r[m].index != x;
    } else if |r| == k {
      assert r[k - 1] == all[k - 1];
    }
  }
}
