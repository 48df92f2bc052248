/** Lowest heights over labelled points, shared by the two ground filters. */
module Heights {
  datatype Height = Fin(h: real) | Inf

  predicate Le(a: Height, b: Height) { b.Inf? || (a.Fin? && a.h <= b.h) }

  function MinH(a: Height, b: Height): Height { if Le(a, b) then a else b }

  /** The lowest of the first n points with label c; no such point is infinitely high. */
  function Low<T(==)>(labels: seq<T>, h: seq<real>, n: nat, c: T): Height
    requires n <= |labels| == |h|
  {
    if n == 0 then Inf
    else if labels[n - 1] == c then MinH(Low(labels, h, n - 1, c), Fin(h[n - 1]))
    else Low(labels, h, n - 1, c)
  }

  /** Low is a lower bound of the heights with that label, and one of them unless there is none. */
  lemma {:induction false} LowIsLowest<T>(labels: seq<T>, h: seq<real>, n: nat, c: T)
    requires n <= |labels| == |h|
    ensures forall k :: 0 <= k < n && labels[k] == c ==> Le(Low(labels, h, n, c), Fin(h[k]))
    ensures Low(labels, h, n, c).Fin? ==> exists k :: 0 <= k < n && labels[k] == c && Low(labels, h, n, c) == Fin(h[k])
  {
    if n > 0 { LowIsLowest(labels, h, n - 1, c); }
  }

  /** out lists, in order, the entries at the positions idx, all among the first n. */
  ghost predicate Picked<T>(all: seq<T>, idx: seq<int>, n: nat, out: seq<T>)
    requires n <= |all|
  {
    && |out| == |idx|
    && (forall j :: 0 <= j < |idx| ==> 0 <= idx[j] < n && out[j] == all[idx[j]])
    && (forall i, j :: 0 <= i < j < |idx| ==> idx[i] < idx[j])
  }

  /** The entries among the first n that are marked. */
  function Marked<T>(all: seq<T>, keep: seq<bool>, n: nat): seq<T>
    requires n <= |all| == |keep|
  {
    if n == 0 then [] else Marked(all, keep, n - 1) + (if keep[n - 1] then [all[n - 1]] else [])
  }

  lemma PickedNext<T>(all: seq<T>, idx: seq<int>, n: nat, out: seq<T>)
    requires n < |all| && Picked(all, idx, n, out)
    ensures Picked(all, idx, n + 1, out)
    ensures Picked(all, idx + [n], n + 1, out + [all[n]])
  {
  }

  lemma NextMember(idx: seq<int>, n: nat, k: int)
    requires forall j :: 0 <= j < |idx| ==> idx[j] < n
    ensures n !in idx && (k in idx + [n] <==> k in idx || k == n)
  {
  }

  /** They are picked at exactly the marked positions. */
  lemma {:induction false} MarkedIsPicked<T>(all: seq<T>, keep: seq<bool>, n: nat) returns (idx: seq<int>)
    requires n <= |all| == |keep|
    ensures Picked(all, idx, n, Marked(all, keep, n))
    ensures forall k :: 0 <= k < n ==> (k in idx <==> keep[k])
  {
    if n == 0 {
      idx := [];
    } else {
      var front := MarkedIsPicked(all, keep, n - 1);
      PickedNext(all, front, n - 1, Marked(all, keep, n - 1));
      idx := if keep[n - 1] then front + [n - 1] else front;
      forall k | 0 <= k < n ensures k in idx <==> keep[k] { NextMember(front, n - 1, k); }
    }
  }
}
