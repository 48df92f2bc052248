/** Greedy line-of-sight string-pulling of a grid path. */
module Shortcuts {
  import opened Grids
  import opened Sight

  /** The kept positions run strictly upward from the first to the last position of the path. */
  ghost predicate Selection(kept: seq<nat>, n: nat) {
    && (n == 0 ==> kept == [])
    && (n > 0 ==> |kept| > 0 && kept[0] == 0 && kept[|kept| - 1] == n - 1)
    && (forall i, j :: 0 <= i < j < |kept| ==> kept[i] < kept[j])
    && (forall i :: 0 <= i < |kept| ==> kept[i] < n)
  }

  function Pick(path: seq<Cell>, kept: seq<nat>): (r: seq<Cell>)
    requires forall i :: 0 <= i < |kept| ==> kept[i] < |path|
    ensures |r| == |kept| && forall i :: 0 <= i < |r| ==> r[i] == path[kept[i]]
  {
    seq(|kept|, i requires 0 <= i < |kept| => path[kept[i]])
  }

  /** Which positions of the path see which. */
  ghost function SightOf(s: Settings, g: Grid, path: seq<Cell>): (int, int) -> bool
    requires WellFormed(g)
  {
    (i, j) => 0 <= i < |path| && 0 <= j < |path| && Sees(s, g, path[i], path[j])
  }

  /** From position `from` every later position up to `to`, except the next one, is in sight. */
  ghost predicate InSightUpTo(sees: (int, int) -> bool, from: int, to: int) {
    forall m :: from + 1 < m <= to ==> sees(from, m)
  }

  /** Each segment reaches as far as sight allows: all positions up to its end are visible from
      its start, and the position after its end, if there is one, is not. */
  ghost predicate Greedy(sees: (int, int) -> bool, n: nat, kept: seq<nat>) {
    forall i :: 0 <= i < |kept| - 1 ==> FarthestFrom(sees, n, kept, i)
  }

  ghost predicate FarthestFrom(sees: (int, int) -> bool, n: nat, kept: seq<nat>, i: nat)
    requires i + 1 < |kept|
  {
    && InSightUpTo(sees, kept[i], kept[i + 1])
    && (kept[i + 1] + 1 < n ==> !sees(kept[i], kept[i + 1] + 1))
  }

  method ShortcutPath(s: Settings, g: Grid, path: seq<Cell>) returns (out: seq<Cell>, ghost kept: seq<nat>)
    requires WellFormed(g)
    ensures Selection(kept, |path|) && out == Pick(path, kept)
    ensures Greedy(SightOf(s, g, path), |path|, kept)
  {
    if |path| <= 2 {
      kept := if |path| == 0 then [] else if |path| == 1 then [0] else [0, 1];
      ShortIsKept(SightOf(s, g, path), path, kept);
      return path, kept;
    }
    ghost var sees := SightOf(s, g, path);
    out := [path[0]];
    kept := [0];
    PrefixStarts(sees, path);
    var anchor, i, n := 0, 1, |path|;
    while i < n - 1
      invariant anchor < i <= n - 1
      invariant Prefix(sees, path, kept, out, anchor) && InSightUpTo(sees, anchor, i)
    {
      var clear := LineOfSight(s, g, path[anchor], path[i + 1]);
      assert clear == sees(anchor, i + 1);
      if clear {
        i := i + 1;
        continue;
      }
      PrefixGrows(sees, path, kept, out, anchor, i);
      out, kept := out + [path[i]], kept + [i];
      anchor, i := i, i + 1;
    }
    PrefixGrows(sees, path, kept, out, anchor, n - 1);
    out, kept := out + [path[n - 1]], kept + [n - 1];
  }

  lemma ShortIsKept(sees: (int, int) -> bool, path: seq<Cell>, kept: seq<nat>)
    requires |path| <= 2 && kept == if |path| == 0 then [] else if |path| == 1 then [0] else [0, 1]
    ensures Selection(kept, |path|) && path == Pick(path, kept) && Greedy(sees, |path|, kept)
  {
  }

  lemma PrefixStarts(sees: (int, int) -> bool, path: seq<Cell>)
    requires |path| > 0
    ensures Prefix(sees, path, [0], [path[0]], 0)
  {
  }

  /** The output so far: a greedy selection that ends at the anchor. */
  ghost predicate Prefix(sees: (int, int) -> bool, path: seq<Cell>, kept: seq<nat>, out: seq<Cell>, anchor: nat) {
    && anchor < |path|
    && Selection(kept, anchor + 1)
    && out == Pick(path, kept)
    && Greedy(sees, |path|, kept)
  }

  lemma PrefixGrows(sees: (int, int) -> bool, path: seq<Cell>, kept: seq<nat>, out: seq<Cell>, anchor: nat, next: nat)
    requires Prefix(sees, path, kept, out, anchor) && anchor < next < |path| && InSightUpTo(sees, anchor, next)
    requires next + 1 < |path| ==> !sees(anchor, next + 1)
    ensures Prefix(sees, path, kept + [next], out + [path[next]], next)
  {
    var k := kept + [next];
    forall i | 0 <= i < |k| - 1 ensures FarthestFrom(sees, |path|, k, i) {
      if i < |kept| - 1 {
        assert FarthestFrom(sees, |path|, kept, i);
        assert k[i] == kept[i] && k[i + 1] == kept[i + 1];
      }
    }
  }

  /** Every segment of the shortened path is an original step or a checked line of sight. */
  lemma SegmentsAreSafe(s: Settings, g: Grid, path: seq<Cell>, kept: seq<nat>, i: nat)
    requires WellFormed(g) && Selection(kept, |path|) && Greedy(SightOf(s, g, path), |path|, kept) && i + 1 < |kept|
    ensures kept[i] < kept[i + 1] < |path|
    ensures kept[i + 1] == kept[i] + 1 || Sees(s, g, path[kept[i]], path[kept[i + 1]])
  {
    var sees := SightOf(s, g, path);
    assert FarthestFrom(sees, |path|, kept, i);
    assert kept[i] + 1 < kept[i + 1] ==> sees(kept[i], kept[i + 1]);
  }

  /** Greed leaves no choice: two greedy selections of the same path keep the same positions. */
  lemma {:induction false} GreedyIsUnique(sees: (int, int) -> bool, n: nat, k1: seq<nat>, k2: seq<nat>, i: nat)
    requires Selection(k1, n) && Greedy(sees, n, k1)
    requires Selection(k2, n) && Greedy(sees, n, k2)
    requires i < |k1| && i < |k2|
    ensures k1[i] == k2[i]
  {
    if i > 0 {
      GreedyIsUnique(sees, n, k1, k2, i - 1);
      NotShorter(sees, n, k1, k2, i);
      NotShorter(sees, n, k2, k1, i);
    }
  }

  lemma NotShorter(sees: (int, int) -> bool, n: nat, k1: seq<nat>, k2: seq<nat>, i: nat)
    requires Selection(k1, n) && Greedy(sees, n, k1)
    requires Selection(k2, n) && Greedy(sees, n, k2)
    requires 0 < i < |k1| && i < |k2| && k1[i - 1] == k2[i - 1]
    ensures k1[i] >= k2[i]
  {
    var from: int, to: int := k2[i - 1], k1[i];
    assert FarthestFrom(sees, n, k1, i - 1) && FarthestFrom(sees, n, k2, i - 1);
    assert to < k2[i] ==> sees(from, to + 1);
  }
}
