/** Choice of the inertial samples for a scan and the placing of every scan timestamp between two
    of them. The buffer holds sample stamps, newest first. */
module ImuWindows {
  import opened Wrappers

  /** One integrated frame: its timestamp and the buffer positions of the newer and older sample
      it is interpolated between. */
  datatype Frame = Frame(t: real, older: nat, newer: nat)

  ghost predicate NewestFirst(buf: seq<real>) { forall i, j :: 0 <= i < j < |buf| ==> buf[i] >= buf[j] }

  ghost predicate Ascending(ts: seq<real>) { forall i, j :: 0 <= i < j < |ts| ==> ts[i] <= ts[j] }

  /** The frame's time lies in the interval between two adjacent samples, the newer end included. */
  ghost predicate Brackets(buf: seq<real>, f: Frame) {
    f.older == f.newer + 1 && f.older < |buf| && buf[f.older] < f.t <= buf[f.newer]
  }

  lemma BracketsIsUnique(buf: seq<real>, f: Frame, g: Frame)
    requires NewestFirst(buf) && Brackets(buf, f) && Brackets(buf, g) && f.t == g.t
    ensures f == g
  {
  }

  /** Some sample predates the start. */
  ghost predicate Predates(buf: seq<real>, start: real) { exists i :: 0 <= i < |buf| && buf[i] < start }

  /** The two iterator loops. Iteration later runs from position first down to position last. */
  method ImuMeasFromTimeRange(buf: seq<real>, start: real, end: real) returns (range: Option<(nat, nat)>)
    requires NewestFirst(buf) && start <= end
    requires buf != [] && buf[0] >= end
    ensures range.Some? <==> Predates(buf, start)
    ensures range.Some? ==>
              var (first, last) := range.value;
              && last < first < |buf|
              && buf[first] < start <= buf[first - 1]
              && end <= buf[last] && buf[last + 1] < end
  {
    var last, it := 0, 1;
    while it < |buf| && buf[it] >= end
      invariant 1 <= it <= |buf| && last == it - 1 && buf[last] >= end
      invariant forall j :: 0 <= j < it ==> buf[j] >= end
    {
      last, it := it, it + 1;
    }
    while it < |buf| && buf[it] >= start
      invariant last < it <= |buf|
      invariant last + 1 < |buf| ==> buf[last + 1] < end
      invariant forall j :: 0 <= j < it ==> buf[j] >= start
    {
      it := it + 1;
    }
    if it == |buf| {
      range := None;
    } else {
      range := Some((it, last));
    }
  }

  /** The frames answer the first timestamps in order, from samples within the range. */
  ghost predicate Placed(buf: seq<real>, ts: seq<real>, frames: seq<Frame>, first: nat, last: nat) {
    && |frames| <= |ts|
    && forall k :: 0 <= k < |frames| ==> PlacedAt(buf, ts[k], frames[k], first, last)
  }

  ghost predicate PlacedAt(buf: seq<real>, t: real, f: Frame, first: nat, last: nat) {
    f.t == t && Brackets(buf, f) && last <= f.newer < f.older <= first
  }

  /** One frame per timestamp, each between the two samples around it. */
  method IntegrateImuInternal(buf: seq<real>, ts: seq<real>, first: nat, last: nat) returns (frames: seq<Frame>)
    requires NewestFirst(buf) && Ascending(ts) && ts != []
    requires last < first < |buf| && buf[first] < ts[0] && ts[|ts| - 1] <= buf[last]
    ensures |frames| == |ts|
    ensures Placed(buf, ts, frames, first, last)
  {
    frames := [];
    var prev, it := first, first - 1;
    var k := 0;
    while it >= last
      invariant last - 1 <= it && prev == it + 1 && prev <= first
      invariant k == |frames| && Placed(buf, ts, frames, first, last)
      invariant k < |ts| ==> buf[prev] < ts[k]
    {
      while k < |ts| && ts[k] <= buf[it]
        invariant k == |frames| && Placed(buf, ts, frames, first, last)
        invariant k < |ts| ==> buf[prev] < ts[k]
      {
        frames := frames + [Frame(ts[k], prev, it)];
        k := k + 1;
      }
      prev, it := it, it - 1;
    }
  }

  /** Integration answers with one frame per timestamp, or with none when there is no timestamp, the
      start is after the first of them, or no sample predates the start. */
  method IntegrateImu(buf: seq<real>, start: real, ts: seq<real>) returns (frames: seq<Frame>)
    requires NewestFirst(buf) && Ascending(ts)
    requires ts != [] && start <= ts[0] ==> buf != [] && buf[0] >= ts[|ts| - 1]
    ensures var served := ts != [] && start <= ts[0] && Predates(buf, start);
            && |frames| == (if served then |ts| else 0)
            && forall k :: 0 <= k < |frames| ==> frames[k].t == ts[k] && Brackets(buf, frames[k])
  {
    if ts == [] || start > ts[0] { return []; }
    var range := ImuMeasFromTimeRange(buf, start, ts[|ts| - 1]);
    match range
    case None => return [];
    case Some(r) =>
      var (first, last) := r;
      frames := IntegrateImuInternal(buf, ts, first, last);
  }
}
