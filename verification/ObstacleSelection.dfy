/** Choice of the obstacle points the tracking barrier watches: the nearest point of every
    occupied angular sector first, then the nearest remaining points, then sentinels. */
module ObstacleSelection {
  /** A point with its distance from the robot and the floored angle fraction the library calls
      give for it. */
  datatype Reading = Reading(x: real, y: real, finite: bool, dist: real, angle: int)

  datatype Row = Obstacle(point: Reading) | Sentinel

  function Close(pts: seq<Reading>, radius: real): seq<Reading> {
    if pts == [] then []
    else
      var rest, last := Close(pts[..|pts| - 1], radius), pts[|pts| - 1];
      if last.finite && last.dist < radius then rest + [last] else rest
  }

  /** The angle fraction clipped to 0 .. n - 1; for n == 0 the upper bound wins. */
  function Sector(p: Reading, n: nat): int {
    var low := if p.angle < 0 then 0 else p.angle;
    if low > n - 1 then n - 1 else low
  }

  function Dists(close: seq<Reading>): seq<real> { seq(|close|, i requires 0 <= i < |close| => close[i].dist) }

  function Sectors(close: seq<Reading>, n: nat): seq<int> {
    seq(|close|, i requires 0 <= i < |close| => Sector(close[i], n))
  }

  /** The close points are the finite ones within the radius, each as often as it was given. */
  lemma {:induction false} CloseIsExact(pts: seq<Reading>, radius: real, p: Reading)
    ensures multiset(Close(pts, radius))[p] == if p.finite && p.dist < radius then multiset(pts)[p] else 0
  {
    if pts != [] {
      var front, last := pts[..|pts| - 1], pts[|pts| - 1];
      CloseIsExact(front, radius, p);
      assert pts == front + [last];
    }
  }

  /** An angle fraction in range is the sector; others fall to the nearer end. */
  ghost predicate InSector(p: Reading, n: nat, k: int) {
    && 0 <= k < n
    && (0 <= p.angle < n ==> k == p.angle)
    && (p.angle < 0 ==> k == 0)
    && (p.angle >= n ==> k == n - 1)
  }

  lemma SectorIsExact(p: Reading, n: nat, k: int)
    requires n >= 1
    ensures Sector(p, n) == k <==> InSector(p, n, k)
  {
  }

  // ---- Index lists ----

  ghost predicate Distinct(s: seq<int>, n: nat) {
    && (forall k :: 0 <= k < |s| ==> 0 <= s[k] < n)
    && (forall j, k :: 0 <= j < k < |s| ==> s[j] != s[k])
  }

  /** What sorting by distance gives: every index once, nearest first, ties in any order. */
  ghost predicate NearestFirst(order: seq<int>, dist: seq<real>) {
    && |order| == |dist|
    && Distinct(order, |dist|)
    && (forall j, k :: 0 <= j < k < |order| ==> dist[order[j]] <= dist[order[k]])
  }

  function Min(a: nat, b: nat): nat { if a <= b then a else b }

  ghost function Range(n: nat): (r: set<int>)
    ensures |r| == n && forall i :: i in r <==> 0 <= i < n
  {
    if n == 0 then {} else Range(n - 1) + {n - 1}
  }

  function Elems(s: seq<int>): set<int> { set x | x in s }

  lemma SubsetSize<T>(a: set<T>, b: set<T>)
    requires a <= b
    ensures |a| <= |b|
    ensures |a| == |b| ==> a == b
  {
    assert b == a + (b - a);
  }

  lemma {:induction false} ElemsSize(s: seq<int>, n: nat)
    requires Distinct(s, n)
    ensures |Elems(s)| == |s|
  {
    if s == [] {
      assert Elems(s) == {};
    } else {
      var t, x := s[..|s| - 1], s[|s| - 1];
      ElemsSize(t, n);
      assert x !in t;
      assert s == t + [x];
      assert Elems(s) == Elems(t) + {x};
    }
  }

  lemma DistinctSize(s: seq<int>, n: nat)
    requires Distinct(s, n)
    ensures |s| <= n
    ensures |s| == n <==> forall i :: 0 <= i < n ==> i in s
  {
    ElemsSize(s, n);
    SubsetSize(Elems(s), Range(n));
    if forall i :: 0 <= i < n ==> i in s { assert Elems(s) == Range(n); }
    if |s| == n {
      forall i | 0 <= i < n ensures i in s { assert i in Range(n); }
    }
  }

  lemma EveryIndexIsOrdered(dist: seq<real>, order: seq<int>, i: int) returns (j: int)
    requires NearestFirst(order, dist) && 0 <= i < |dist|
    ensures 0 <= j < |order| && order[j] == i
  {
    DistinctSize(order, |dist|);
    assert i in order;
    j :| 0 <= j < |order| && order[j] == i;
  }

  // ---- The choice ----

  /** A point that is the nearest of its sector. */
  ghost predicate Leads(dist: seq<real>, sec: seq<int>, i: int)
    requires |dist| == |sec| && 0 <= i < |dist|
  {
    forall j :: 0 <= j < |dist| && sec[j] == sec[i] ==> dist[i] <= dist[j]
  }

  ghost predicate OnePerSector(dist: seq<real>, sec: seq<int>, led: seq<int>)
    requires |dist| == |sec| && Distinct(led, |dist|)
  {
    && (forall k :: 0 <= k < |led| ==> Leads(dist, sec, led[k]))
    && (forall j, k :: 0 <= j < k < |led| ==> sec[led[j]] != sec[led[k]])
  }

  ghost predicate HasLeader(sec: seq<int>, led: seq<int>, i: int)
    requires Distinct(led, |sec|) && 0 <= i < |sec|
  {
    exists k :: 0 <= k < |led| && sec[led[k]] == sec[i]
  }

  /** Every occupied sector is represented by its nearest point, exactly once. */
  ghost predicate WellLed(dist: seq<real>, sec: seq<int>, led: seq<int>)
    requires |dist| == |sec|
  {
    && Distinct(led, |dist|)
    && OnePerSector(dist, sec, led)
    && (forall i :: 0 <= i < |sec| ==> HasLeader(sec, led, i))
  }

  ghost predicate NotNearer(dist: seq<real>, fillers: seq<int>, i: int)
    requires 0 <= i < |dist| && forall c :: 0 <= c < |fillers| ==> 0 <= fillers[c] < |dist|
  {
    forall c :: 0 <= c < |fillers| ==> dist[fillers[c]] <= dist[i]
  }

  /** Nothing left out is nearer than a filler. */
  ghost predicate WellFilled(dist: seq<real>, chosen: seq<int>, leaders: nat)
    requires Distinct(chosen, |dist|) && leaders <= |chosen|
  {
    forall i :: 0 <= i < |dist| && i !in chosen ==> NotNearer(dist, chosen[leaders..], i)
  }

  lemma FirstMetLeads(dist: seq<real>, sec: seq<int>, order: seq<int>, k: nat)
    requires |dist| == |sec| && NearestFirst(order, dist) && k < |order|
    requires forall j :: 0 <= j < k ==> sec[order[j]] != sec[order[k]]
    ensures Leads(dist, sec, order[k])
  {
    forall i | 0 <= i < |dist| && sec[i] == sec[order[k]] ensures dist[order[k]] <= dist[i] {
      var j := EveryIndexIsOrdered(dist, order, i);
    }
  }

  ghost function SectorsOf(sec: seq<int>, led: seq<int>): set<int>
    requires Distinct(led, |sec|)
  {
    set k | 0 <= k < |led| :: sec[led[k]]
  }

  /** The state of the first pass after k entries of order. */
  ghost predicate LedSoFar(dist: seq<real>, sec: seq<int>, order: seq<int>, k: nat, led: seq<int>, seen: set<int>, taken: set<int>) {
    && |dist| == |sec| && NearestFirst(order, dist) && k <= |order|
    && Distinct(led, |dist|) && OnePerSector(dist, sec, led) && taken == Elems(led)
    && seen == SectorsOf(sec, led) && |seen| == |led|
    && forall j :: 0 <= j < k ==> sec[order[j]] in seen
  }

  lemma NewLeader(dist: seq<real>, sec: seq<int>, order: seq<int>, k: nat, led: seq<int>, seen: set<int>, taken: set<int>)
    requires LedSoFar(dist, sec, order, k, led, seen, taken) && k < |order| && sec[order[k]] !in seen
    ensures LedSoFar(dist, sec, order, k + 1, led + [order[k]], seen + {sec[order[k]]}, taken + {order[k]})
  {
    var i := order[k];
    assert Leads(dist, sec, i) by { FirstMetLeads(dist, sec, order, k); }
    Unseen(sec, led, sec[i]);
    StillOnePerSector(dist, sec, led, i);
    Extended(sec, led, i);
    ElemsExtended(led, i);
  }

  lemma ElemsExtended(s: seq<int>, i: int)
    ensures Elems(s + [i]) == Elems(s) + {i}
  {
  }

  lemma Unseen(sec: seq<int>, led: seq<int>, s: int)
    requires Distinct(led, |sec|) && s !in SectorsOf(sec, led)
    ensures forall c :: 0 <= c < |led| ==> sec[led[c]] != s
  {
    forall c | 0 <= c < |led| ensures sec[led[c]] in SectorsOf(sec, led) { }
  }

  lemma StillOnePerSector(dist: seq<real>, sec: seq<int>, led: seq<int>, i: int)
    requires |dist| == |sec| && Distinct(led, |dist|) && OnePerSector(dist, sec, led)
    requires 0 <= i < |dist| && Leads(dist, sec, i) && forall c :: 0 <= c < |led| ==> sec[led[c]] != sec[i]
    ensures Distinct(led + [i], |dist|) && OnePerSector(dist, sec, led + [i])
  {
  }

  lemma Extended(sec: seq<int>, led: seq<int>, i: int)
    requires 0 <= i < |sec| && Distinct(led, |sec|) && Distinct(led + [i], |sec|)
    ensures SectorsOf(sec, led + [i]) == SectorsOf(sec, led) + {sec[i]}
  {
    var more := led + [i];
    assert more[|led|] == i;
    forall s | s in SectorsOf(sec, led) ensures s in SectorsOf(sec, more) {
      var k :| 0 <= k < |led| && s == sec[led[k]];
      assert more[k] == led[k];
    }
  }

  lemma SameSector(dist: seq<real>, sec: seq<int>, order: seq<int>, k: nat, led: seq<int>, seen: set<int>, taken: set<int>)
    requires LedSoFar(dist, sec, order, k, led, seen, taken) && k < |order| && sec[order[k]] in seen
    ensures LedSoFar(dist, sec, order, k + 1, led, seen, taken)
  {
  }

  lemma AllSeen(dist: seq<real>, sec: seq<int>, order: seq<int>, n: nat, k: nat, led: seq<int>, seen: set<int>, taken: set<int>)
    requires LedSoFar(dist, sec, order, k, led, seen, taken)
    requires forall i :: 0 <= i < |sec| ==> 0 <= sec[i] < n
    requires |led| >= n || k == |order|
    ensures |led| <= n && WellLed(dist, sec, led)
  {
    SubsetSize(seen, Range(n));
    forall i | 0 <= i < |sec| ensures HasLeader(sec, led, i) {
      if |led| >= n {
        assert sec[i] in Range(n);
      } else {
        var j := EveryIndexIsOrdered(dist, order, i);
      }
      assert sec[i] in seen;
    }
  }

  /** The nearest-first pass that takes the first point met in each sector. */
  method Lead(dist: seq<real>, sec: seq<int>, order: seq<int>, n: nat) returns (chosen: seq<int>, taken: set<int>)
    requires |dist| == |sec| && NearestFirst(order, dist)
    requires n >= 1 ==> forall i :: 0 <= i < |sec| ==> 0 <= sec[i] < n
    ensures n >= 1 ==> WellLed(dist, sec, chosen) && |chosen| <= n
    ensures n == 0 ==> chosen == if order == [] then [] else [order[0]]
    ensures Distinct(chosen, |dist|) && taken == Elems(chosen)
  {
    chosen, taken := [], {};
    var seen: set<int> := {};
    var k := 0;
    while k < |order|
      invariant LedSoFar(dist, sec, order, k, chosen, seen, taken)
      invariant |chosen| < n || (k == 0 && chosen == [])
    {
      var i := order[k];
      var s := sec[i];
      if s !in seen {
        NewLeader(dist, sec, order, k, chosen, seen, taken);
        k, seen, chosen, taken := k + 1, seen + {s}, chosen + [i], taken + {i};
        if |chosen| >= n { break; }
      } else {
        SameSector(dist, sec, order, k, chosen, seen, taken);
        k := k + 1;
      }
    }
    if n >= 1 { AllSeen(dist, sec, order, n, k, chosen, seen, taken); }
  }

  /** The second pass, which fills the free slots with the nearest points not yet taken. */
  method Fill(dist: seq<real>, order: seq<int>, n: nat, led: seq<int>, already: set<int>) returns (chosen: seq<int>)
    requires NearestFirst(order, dist)
    requires |led| < n && Distinct(led, |dist|) && already == Elems(led)
    ensures Distinct(chosen, |dist|) && led <= chosen && WellFilled(dist, chosen, |led|)
    ensures |chosen| == Min(|dist|, n)
  {
    chosen := led;
    var taken := already;
    var k := 0;
    while k < |order|
      invariant 0 <= k <= |order|
      invariant led <= chosen && |chosen| < n
      invariant Distinct(chosen, |dist|) && taken == Elems(chosen)
      invariant forall j :: 0 <= j < k ==> order[j] in chosen
      invariant forall c :: |led| <= c < |chosen| ==> chosen[c] in order[..k]
    {
      if order[k] !in taken {
        ElemsExtended(chosen, order[k]);
        chosen, taken := chosen + [order[k]], taken + {order[k]};
        if |chosen| >= n {
          FilledWell(dist, order, n, chosen, |led|, k + 1);
          return;
        }
      }
      k := k + 1;
    }
    FilledWell(dist, order, n, chosen, |led|, k);
  }

  lemma FilledWell(dist: seq<real>, order: seq<int>, n: nat, chosen: seq<int>, leaders: nat, k: nat)
    requires NearestFirst(order, dist) && k <= |order| && Distinct(chosen, |dist|) && leaders <= |chosen| <= n
    requires k == |order| || |chosen| == n
    requires forall j :: 0 <= j < k ==> order[j] in chosen
    requires forall c :: leaders <= c < |chosen| ==> chosen[c] in order[..k]
    ensures WellFilled(dist, chosen, leaders) && |chosen| == Min(|dist|, n)
  {
    DistinctSize(chosen, |dist|);
    forall i | 0 <= i < |dist| ensures i in chosen || exists j :: k <= j < |order| && order[j] == i {
      var j := EveryIndexIsOrdered(dist, order, i);
    }
    var fillers := chosen[leaders..];
    forall i | 0 <= i < |dist| && i !in chosen ensures NotNearer(dist, fillers, i) {
      var l :| k <= l < |order| && order[l] == i;
      forall c | 0 <= c < |fillers| ensures dist[fillers[c]] <= dist[i] {
        assert fillers[c] == chosen[leaders + c];
        var j :| 0 <= j < k && order[j] == fillers[c];
      }
    }
  }

  /** Every occupied sector is led by its nearest point and the fillers after the leaders are the
      nearest of the rest. */
  ghost predicate WellChosen(dist: seq<real>, sec: seq<int>, chosen: seq<int>, led: seq<int>) {
    && |dist| == |sec| && Distinct(chosen, |dist|)
    && led <= chosen
    && WellLed(dist, sec, led)
    && WellFilled(dist, chosen, |led|)
  }

  lemma NothingToChoose(dist: seq<real>, sec: seq<int>)
    requires dist == [] && sec == []
    ensures WellChosen(dist, sec, [], [])
  {
  }

  /** Both passes on the distances and sectors of the close points. */
  method Choose(dist: seq<real>, sec: seq<int>, order: seq<int>, n: nat) returns (chosen: seq<int>, ghost led: seq<int>)
    requires |dist| == |sec| && NearestFirst(order, dist)
    requires n >= 1 ==> forall i :: 0 <= i < |sec| ==> 0 <= sec[i] < n
    ensures Distinct(chosen, |dist|)
    ensures n >= 1 ==> WellChosen(dist, sec, chosen, led)
    ensures n >= 1 ==> |chosen| == Min(|dist|, n)
    ensures n == 0 ==> chosen == if order == [] then [] else [order[0]]
  {
    var taken;
    chosen, taken := Lead(dist, sec, order, n);
    led := chosen;
    DistinctSize(led, |dist|);
    if |chosen| < n { chosen := Fill(dist, order, n, chosen, taken); }
  }

  ghost predicate RowsOf(close: seq<Reading>, chosen: seq<int>, rows: seq<Row>)
    requires Distinct(chosen, |close|)
  {
    && |chosen| <= |rows|
    && (forall k :: 0 <= k < |chosen| ==> rows[k] == Obstacle(close[chosen[k]]))
    && (forall k :: |chosen| <= k < |rows| ==> rows[k] == Sentinel)
  }

  /** Exactly n rows: min(close, n) distinct close points with every occupied sector represented by
      its nearest point and no point left out nearer than a filler, then sentinels. A target of zero
      rows is not honoured: the first close point is returned all the same. */
  method SelectObsPoints(pts: seq<Reading>, radius: real, n: nat, order: seq<int>)
    returns (rows: seq<Row>, ghost chosen: seq<int>, ghost led: seq<int>)
    requires NearestFirst(order, Dists(Close(pts, radius)))
    ensures Selection(Close(pts, radius), n, order, rows, chosen, led)
  {
    rows, chosen, led := SelectFrom(Close(pts, radius), n, order);
  }

  ghost predicate Selection(close: seq<Reading>, n: nat, order: seq<int>, rows: seq<Row>, chosen: seq<int>, led: seq<int>) {
    && Distinct(chosen, |close|) && RowsOf(close, chosen, rows)
    && if n >= 1 then
         && |rows| == n && |chosen| == Min(|close|, n)
         && WellChosen(Dists(close), Sectors(close, n), chosen, led)
       else
         |rows| == |chosen| && chosen == if order == [] then [] else [order[0]]
  }

  /** What the rows say of the points given: every row point is a given one, finite and within the radius;
      and every such point has a row point in its sector that is not farther. */
  lemma RowsAnswer(pts: seq<Reading>, radius: real, n: nat, order: seq<int>, rows: seq<Row>, chosen: seq<int>, led: seq<int>)
    requires n >= 1 && Selection(Close(pts, radius), n, order, rows, chosen, led)
    ensures forall k :: 0 <= k < |rows| && rows[k].Obstacle? ==>
              rows[k].point in multiset(pts) && rows[k].point.finite && rows[k].point.dist < radius
    ensures forall p :: p in multiset(pts) && p.finite && p.dist < radius ==> Covered(rows, n, p)
  {
    var close := Close(pts, radius);
    forall k | 0 <= k < |rows| && rows[k].Obstacle?
      ensures rows[k].point in multiset(pts) && rows[k].point.finite && rows[k].point.dist < radius
    {
      assert rows[k].point in multiset(close);
      CloseIsExact(pts, radius, rows[k].point);
    }
    forall p | p in multiset(pts) && p.finite && p.dist < radius ensures Covered(rows, n, p) {
      CloseIsExact(pts, radius, p);
      assert p in multiset(close);
      var i :| 0 <= i < |close| && close[i] == p;
      CloseIsCovered(close, n, order, rows, chosen, led, i);
    }
  }

  ghost predicate CoversAt(rows: seq<Row>, n: nat, p: Reading, k: int, s: int)
    requires 0 <= k < |rows|
  {
    rows[k].Obstacle? && rows[k].point.dist <= p.dist && InSector(p, n, s) && InSector(rows[k].point, n, s)
  }

  ghost predicate Covered(rows: seq<Row>, n: nat, p: Reading) {
    exists k, s :: 0 <= k < |rows| && CoversAt(rows, n, p, k, s)
  }

  lemma CloseIsCovered(close: seq<Reading>, n: nat, order: seq<int>, rows: seq<Row>, chosen: seq<int>, led: seq<int>, i: int)
    requires n >= 1 && Selection(close, n, order, rows, chosen, led) && 0 <= i < |close|
    ensures Covered(rows, n, close[i])
  {
    var sec := Sectors(close, n);
    assert HasLeader(sec, led, i);
    var k :| 0 <= k < |led| && sec[led[k]] == sec[i];
    assert Leads(Dists(close), sec, led[k]) && chosen[k] == led[k];
    SectorIsExact(close[i], n, sec[i]);
    SectorIsExact(close[led[k]], n, sec[i]);
    assert CoversAt(rows, n, close[i], k, sec[i]);
  }

  /** The row count is the target exactly when the target is positive or no point is close. */
  lemma RowCountIsExact(close: seq<Reading>, n: nat, order: seq<int>, rows: seq<Row>, chosen: seq<int>, led: seq<int>)
    requires NearestFirst(order, Dists(close)) && Selection(close, n, order, rows, chosen, led)
    ensures |rows| == n <==> n >= 1 || close == []
  {
  }

  /** With a target of zero one close point still makes a row. */
  lemma ZeroTargetGivesARow(p: Reading, radius: real, rows: seq<Row>, chosen: seq<int>, led: seq<int>)
    requires p.finite && p.dist < radius && Selection(Close([p], radius), 0, [0], rows, chosen, led)
    ensures NearestFirst([0], Dists(Close([p], radius))) && rows == [Obstacle(p)]
  {
    assert [p][..0] == [];
    assert Close([p], radius) == [p];
  }

  lemma NoneSelected(close: seq<Reading>, n: nat, order: seq<int>, rows: seq<Row>)
    requires close == [] && order == [] && |rows| == n && forall k :: 0 <= k < n ==> rows[k] == Sentinel
    ensures Selection(close, n, order, rows, [], [])
  {
    NothingToChoose(Dists(close), Sectors(close, n));
  }

  method SelectFrom(close: seq<Reading>, n: nat, order: seq<int>)
    returns (rows: seq<Row>, ghost chosen: seq<int>, ghost led: seq<int>)
    requires NearestFirst(order, Dists(close))
    ensures Selection(close, n, order, rows, chosen, led)
  {
    if close == [] {
      rows, chosen, led := seq(n, _ => Sentinel), [], [];
      NoneSelected(close, n, order, rows);
    } else {
      SectorsInRange(close, n);
      var picked;
      picked, led := Choose(Dists(close), Sectors(close, n), order, n);
      chosen := picked;
      rows := Padded(close, picked, n);
    }
  }

  lemma SectorsInRange(close: seq<Reading>, n: nat)
    ensures n >= 1 ==> forall i :: 0 <= i < |Sectors(close, n)| ==> 0 <= Sectors(close, n)[i] < n
  {
  }

  method Padded(close: seq<Reading>, picked: seq<int>, n: nat) returns (rows: seq<Row>)
    requires Distinct(picked, |close|)
    ensures RowsOf(close, picked, rows)
    ensures |rows| == if |picked| < n then n else |picked|
  {
    rows := seq(|picked|, k requires 0 <= k < |picked| => Obstacle(close[picked[k]]));
    if |picked| < n { rows := rows + seq(n - |picked|, _ => Sentinel); }
  }
}
