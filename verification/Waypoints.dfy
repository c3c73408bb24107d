/** The local path: from the waypoint closest to the vehicle, walk around the circular global path
    until the accumulated distances reach the search radius, and copy that part of the path. */
module Waypoints {
  import opened Bytes
  import opened Reals

  datatype Waypoint = Waypoint(x: real, y: real, z: real)

  function SquareDistance(p: Waypoint, q: Waypoint): real {
    Times(q.x - p.x, q.x - p.x) + Times(q.y - p.y, q.y - p.y) + Times(q.z - p.z, q.z - p.z)
  }

  /** The distances from the position to the waypoints; `root` is the square root. */
  function Distances(root: real -> real, position: Waypoint, path: seq<Waypoint>): (dist: seq<real>)
    ensures |dist| == |path|
  {
    seq(|path|, i requires 0 <= i < |path| => root(SquareDistance(position, path[i])))
  }

  ghost predicate IsRoot(root: real -> real) {
    forall x :: 0.0 <= x ==> 0.0 <= root(x) && Times(root(x), root(x)) == x
  }

  ghost predicate NonNegative(dist: seq<real>) {
    forall i :: 0 <= i < |dist| ==> 0.0 <= dist[i]
  }

  lemma {:induction false} DistancesAreRoots(root: real -> real, position: Waypoint, path: seq<Waypoint>)
    requires IsRoot(root)
    ensures var dist := Distances(root, position, path);
            NonNegative(dist) &&
            forall i :: 0 <= i < |path| ==> Times(dist[i], dist[i]) == SquareDistance(position, path[i])
  {
    var dist := Distances(root, position, path);
    forall i | 0 <= i < |path|
      ensures 0.0 <= dist[i] && Times(dist[i], dist[i]) == SquareDistance(position, path[i])
    {
      SquareDistancePositive(position, path[i]);
      var x := SquareDistance(position, path[i]);
      assert dist[i] == root(x);
    }
  }

  lemma {:induction false} SquareDistancePositive(p: Waypoint, q: Waypoint)
    ensures SquareDistance(p, q) >= 0.0
    ensures SquareDistance(p, q) == 0.0 <==> p == q
  {
    SameSigns(q.x - p.x, q.x - p.x);
    SameSigns(q.y - p.y, q.y - p.y);
    SameSigns(q.z - p.z, q.z - p.z);
  }

  /** Along one axis the square distance is the square of the difference, and the axes add up. */
  lemma {:induction false} SquareDistanceByAxes(p: Waypoint, q: Waypoint)
    ensures SquareDistance(p, p.(x := q.x)) == Times(q.x - p.x, q.x - p.x)
    ensures SquareDistance(p, p.(y := q.y)) == Times(q.y - p.y, q.y - p.y)
    ensures SquareDistance(p, p.(z := q.z)) == Times(q.z - p.z, q.z - p.z)
    ensures SquareDistance(p, q) ==
            SquareDistance(p, p.(x := q.x)) + SquareDistance(p, p.(y := q.y)) + SquareDistance(p, p.(z := q.z))
  {
    SameSigns(p.x - p.x, 0.0);
    SameSigns(p.y - p.y, 0.0);
    SameSigns(p.z - p.z, 0.0);
  }

  // --- the walk ---

  /** What the walk has accumulated after `j` steps: the distances from the vehicle, not along the
      path, of the waypoints stepped on. */
  function Travelled(dist: seq<real>, start: nat, j: nat): real
    requires dist != []
  {
    if j == 0 then 0.0 else Travelled(dist, start, j - 1) + dist[(start + j) % |dist|]
  }

  /** The steps taken, given that `j` have been. */
  function StepsFrom(dist: seq<real>, start: nat, radius: nat, j: nat): nat
    requires j < |dist|
    decreases |dist| - j
  {
    if j == |dist| - 1 || Travelled(dist, start, j) >= radius as real then j
    else StepsFrom(dist, start, radius, j + 1)
  }

  function Steps(dist: seq<real>, start: nat, radius: nat): nat
    requires dist != []
  {
    StepsFrom(dist, start, radius, 0)
  }

  /** `k` is the least number of steps that reach the radius, or all n - 1 if none does. */
  ghost predicate LeastReaching(dist: seq<real>, start: nat, radius: nat, k: nat) {
    k < |dist| && (forall j :: 0 <= j < k ==> Travelled(dist, start, j) < radius as real) &&
    (k == |dist| - 1 || Travelled(dist, start, k) >= radius as real)
  }

  /** The walk takes exactly that number of steps. */
  lemma {:induction false} StepsIff(dist: seq<real>, start: nat, radius: nat, k: nat)
    requires dist != []
    ensures k == Steps(dist, start, radius) <==> LeastReaching(dist, start, radius, k)
  {
    StepsFromLeast(dist, start, radius, 0);
    var atSteps, atK := Travelled(dist, start, Steps(dist, start, radius)), Travelled(dist, start, k);
  }

  lemma {:induction false} StepsFromLeast(dist: seq<real>, start: nat, radius: nat, j: nat)
    requires j < |dist| && forall i :: 0 <= i < j ==> Travelled(dist, start, i) < radius as real
    ensures LeastReaching(dist, start, radius, StepsFrom(dist, start, radius, j))
    decreases |dist| - j
  {
    if j != |dist| - 1 && Travelled(dist, start, j) < radius as real {
      StepsFromLeast(dist, start, radius, j + 1);
    }
  }

  lemma {:induction false} Around(i: nat, n: nat)
    requires n > 0 && i < 2 * n
    ensures i % n == if i < n then i else i - n
  {
    if i >= n {
      assert i == n + (i - n);
    }
  }

  function Total(ts: seq<real>): real {
    if ts == [] then 0.0 else Total(ts[..|ts| - 1]) + ts[|ts| - 1]
  }

  lemma {:induction false} TravelledIsTotal(dist: seq<real>, start: nat, j: nat)
    requires start + j < |dist|
    ensures Travelled(dist, start, j) == Total(dist[start + 1..start + j + 1])
    decreases j
  {
    var stepped := dist[start + 1..start + j + 1];
    if j > 0 {
      TravelledIsTotal(dist, start, j - 1);
      assert stepped[..|stepped| - 1] == dist[start + 1..start + j];
      Around(start + j, |dist|);
    }
  }

  /** After the wrap: all that is left of the path, and the waypoints from its front. */
  lemma {:induction false} TravelledAround(dist: seq<real>, start: nat, j: nat)
    requires start < |dist| && j < |dist| <= start + j
    ensures Travelled(dist, start, j) == Total(dist[start + 1..]) + Total(dist[..start + j + 1 - |dist|])
    decreases j
  {
    var front := dist[..start + j + 1 - |dist|];
    Around(start + j, |dist|);
    assert front[..|front| - 1] == dist[..start + j - |dist|];
    if start + j == |dist| {
      TravelledIsTotal(dist, start, j - 1);
      assert dist[start + 1..start + j] == dist[start + 1..];
    } else {
      TravelledAround(dist, start, j - 1);
    }
  }

  lemma {:induction false} TravelledGrows(dist: seq<real>, start: nat, i: nat, j: nat)
    requires dist != [] && NonNegative(dist) && i <= j
    ensures Travelled(dist, start, i) <= Travelled(dist, start, j)
    decreases j
  {
    if i < j {
      TravelledGrows(dist, start, i, j - 1);
    }
  }

  /** The start is the first waypoint, or the distances to those after it add up to the radius. */
  predicate LongEnough(dist: seq<real>, start: nat, radius: nat)
    requires start < |dist|
  {
    start == 0 || Total(dist[start + 1..]) >= radius as real
  }

  /** The walk stays below the end of the path if and only if it starts at the first waypoint, or the
      distances to the waypoints after the start add up to the radius. */
  lemma {:induction false} NoWrapIff(dist: seq<real>, start: nat, radius: nat)
    requires start < |dist| && NonNegative(dist)
    ensures start + Steps(dist, start, radius) < |dist| <==> LongEnough(dist, start, radius)
  {
    var k, left := Steps(dist, start, radius), |dist| - 1 - start;
    StepsIff(dist, start, radius, k);
    TravelledIsTotal(dist, start, left);
    assert dist[start + 1..start + left + 1] == dist[start + 1..];
    if k <= left {
      TravelledGrows(dist, start, k, left);
    }
  }

  // --- the copied slice ---

  /** The waypoints the walk visits, the first included. */
  function Visited(path: seq<Waypoint>, start: nat, k: nat): seq<Waypoint>
    requires path != []
  {
    seq(k + 1, i requires 0 <= i => path[(start + i) % |path|])
  }

  /** Copying from an iterator past the end iterator is undefined. */
  datatype Slice = Copied(points: seq<Waypoint>) | InvalidRange

  function CopyRange(path: seq<Waypoint>, from: nat, to: nat): Slice
    requires to <= |path|
  {
    if from <= to then Copied(path[from..to]) else InvalidRange
  }

  /** The slice is the visited waypoints exactly when the walk does not wrap around. */
  lemma {:induction false} SliceIff(path: seq<Waypoint>, start: nat, k: nat)
    requires start < |path| && k < |path|
    ensures CopyRange(path, start, (start + k) % |path| + 1) == Copied(Visited(path, start, k)) <==> start + k < |path|
  {
    Around(start + k, |path|);
    if start + k < |path| {
      VisitedIsSlice(path, start, k);
    } else {
      WrappedSlice(path, start, k);
      assert |Visited(path, start, k)| == k + 1;
    }
  }

  /** When it wraps, the slice is empty after a full round and not a valid range otherwise. */
  lemma {:induction false} WrappedSlice(path: seq<Waypoint>, start: nat, k: nat)
    requires start < |path| && k < |path| <= start + k
    ensures CopyRange(path, start, (start + k) % |path| + 1) == if k == |path| - 1 then Copied([]) else InvalidRange
  {
    Around(start + k, |path|);
  }

  lemma {:induction false} VisitedIsSlice(path: seq<Waypoint>, start: nat, k: nat)
    requires start + k < |path|
    ensures path[start..start + k + 1] == Visited(path, start, k)
  {
    var visited := Visited(path, start, k);
    forall i | 0 <= i < |visited|
      ensures visited[i] == path[start..start + k + 1][i]
    {
      Around(start + i, |path|);
    }
  }

  /** The local path when the closest waypoint is `start`. */
  function LocalPath(path: seq<Waypoint>, dist: seq<real>, start: nat, radius: nat): Slice
    requires |dist| == |path| && start < |path|
  {
    CopyRange(path, start, (start + Steps(dist, start, radius)) % |path| + 1)
  }

  /** The local path is the waypoints that the walk visits. */
  ghost predicate Correct(path: seq<Waypoint>, dist: seq<real>, start: nat, radius: nat)
    requires |dist| == |path| && start < |path|
  {
    LocalPath(path, dist, start, radius) == Copied(Visited(path, start, Steps(dist, start, radius)))
  }

  /** The local path is correct exactly when what is left of the global path is long enough. */
  lemma {:induction false} LocalPathIff(path: seq<Waypoint>, dist: seq<real>, start: nat, radius: nat)
    requires |dist| == |path| && start < |path| && NonNegative(dist)
    ensures Correct(path, dist, start, radius) <==> LongEnough(dist, start, radius)
  {
    NoWrapIff(dist, start, radius);
    StepsIff(dist, start, radius, Steps(dist, start, radius));
    SliceIff(path, start, Steps(dist, start, radius));
  }

  lemma {:induction false} CorrectIff(root: real -> real, position: Waypoint, path: seq<Waypoint>, start: nat,
                                      radius: nat)
    requires start < |path|
    ensures var dist := Distances(root, position, path);
            IsRoot(root) ==> (Correct(path, dist, start, radius) <==> LongEnough(dist, start, radius))
  {
    if IsRoot(root) {
      DistancesAreRoots(root, position, path);
      LocalPathIff(path, Distances(root, position, path), start, radius);
    }
  }

  /** A vehicle at the last waypoint, with any radius, is such a case: the walk goes on at the front of
      the path, and the local path is empty or not a valid range. */
  lemma {:induction false} AtLastWaypoint(root: real -> real, position: Waypoint, path: seq<Waypoint>, start: nat,
                                          radius: nat)
    requires IsRoot(root) && |path| >= 2 && radius > 0
    requires position == path[|path| - 1] && forall i :: 0 <= i < |path| - 1 ==> path[i] != position
    requires start < |path| && IsClosest(Distances(root, position, path), start)
    ensures start == |path| - 1
    ensures var slice := LocalPath(path, Distances(root, position, path), start, radius);
            slice == Copied([]) || slice == InvalidRange
  {
    var dist, last := Distances(root, position, path), |path| - 1;
    DistancesAreRoots(root, position, path);
    SquareDistancePositive(position, path[last]);
    SquareDistancePositive(position, path[start]);
    SquaresOrdered(dist[last], dist[start]);
    SquaresOrdered(dist[start], dist[last]);
    assert start == last;
    assert dist[start + 1..] == [];
    NoWrapIff(dist, start, radius);
    StepsIff(dist, start, radius, Steps(dist, start, radius));
    WrappedSlice(path, start, Steps(dist, start, radius));
  }

  /** The conversion of the path length to an unsigned 64-bit integer truncates; it is undefined for
      values that do not fit. */
  ghost predicate Converts(length: real, radius: nat) {
    -1.0 < length < 0x1_0000_0000_0000_0000 as real ==> radius == if length < 0.0 then 0 else length.Floor
  }

  /** Where the conversion is defined it gives the whole part, and 0 just below 0. */
  lemma {:induction false} ConvertsIff(length: real, radius: nat)
    requires -1.0 < length < 18446744073709551616.0
    ensures Converts(length, radius) <==>
            if length <= 0.0 then radius == 0 else radius as real <= length < radius as real + 1.0
  {
  }

  // --- the planner ---

  class Planner {
    const path: seq<Waypoint>
    const root: real -> real
    var currentIndex: nat

    constructor (path: seq<Waypoint>, root: real -> real)
      ensures this.path == path && this.root == root && currentIndex == 0
    {
      this.path, this.root := path, root;
      currentIndex := 0;
    }

    function Distance(p: Waypoint, q: Waypoint): real {
      root(SquareDistance(p, q))
    }

    /** The first of the closest waypoints. */
    method FindClosestWaypoint(position: Waypoint) returns (closest: nat)
      ensures path == [] ==> closest == 0
      ensures path != [] ==> closest < |path| && IsClosest(Distances(root, position, path), closest)
    {
      closest := 0;
      if path == [] {
        return;
      }
      ghost var dist := Distances(root, position, path);
      for i := 1 to |path|
        invariant closest < i <= |path|
        invariant forall j :: 0 <= j < i ==> dist[closest] <= dist[j]
        invariant forall j :: 0 <= j < closest ==> dist[closest] < dist[j]
      {
        if Distance(position, path[i]) < Distance(position, path[closest]) {
          closest := i;
        }
      }
    }

    method FindNextWaypoint(position: Waypoint, radius: nat) returns (next: nat)
      requires path != []
      modifies this
      ensures currentIndex < |path| && IsClosest(Distances(root, position, path), currentIndex)
      ensures next == (currentIndex + Steps(Distances(root, position, path), currentIndex, radius)) % |path|
    {
      ghost var dist := Distances(root, position, path);
      var closest := FindClosestWaypoint(position);
      currentIndex := closest;
      next := currentIndex;
      var start := currentIndex;
      var distance := 0.0;
      ghost var j: nat := 0;
      Around(start, |path|);
      while distance < radius as real
        invariant j < |path| && start == currentIndex == closest
        invariant next == (start + j) % |path|
        invariant distance == Travelled(dist, start, j)
        invariant Steps(dist, start, radius) == StepsFrom(dist, start, radius, j)
        decreases |path| - j
      {
        var tempNext := (next + 1) % |path|;
        Around(start + j, |path|);
        Around(start + j + 1, |path|);
        Around(next + 1, |path|);
        if tempNext == start {
          break;
        }
        next := tempNext;
        distance := distance + Distance(position, path[next]);
        j := j + 1;
      }
    }

    /** Publishes nothing before a position is known or without waypoints. */
    method PublishLocalPath(position: Option<Waypoint>, length: real) returns (message: Option<Slice>, ghost radius: nat)
      modifies this
      ensures Converts(length, radius)
      ensures message.None? <==> position.None? || path == []
      ensures message.None? ==> currentIndex == old(currentIndex)
      ensures message.Some? ==>
                var dist := Distances(root, position.value, path);
                currentIndex < |path| && IsClosest(dist, currentIndex) &&
                message.value == LocalPath(path, dist, currentIndex, radius) &&
                (IsRoot(root) ==> (Correct(path, dist, currentIndex, radius) <==> LongEnough(dist, currentIndex, radius)))
    {
      var searchRadius := Convert(length);
      radius := searchRadius;
      if position.None? || path == [] {
        return None, radius;
      }
      var next := FindNextWaypoint(position.value, searchRadius);
      CorrectIff(root, position.value, path, currentIndex, radius);
      message := Some(CopyRange(path, currentIndex, next + 1));
    }
  }

  method Convert(length: real) returns (radius: nat)
    ensures Converts(length, radius)
  {
    if -1.0 < length < 0x1_0000_0000_0000_0000 as real {
      radius := if length < 0.0 then 0 else length.Floor;
    } else {
      radius := *;
    }
  }

  /** No waypoint is closer, and none before it is as close. */
  ghost predicate IsClosest(dist: seq<real>, closest: nat)
    requires closest < |dist|
  {
    (forall j :: 0 <= j < |dist| ==> dist[closest] <= dist[j]) &&
    (forall j :: 0 <= j < closest ==> dist[closest] < dist[j])
  }

  /** Comparing distances is comparing the sums of squares under the roots: the closest waypoint is the
      first with the least sum. */
  lemma {:induction false} ClosestIffLeastSquares(root: real -> real, position: Waypoint, path: seq<Waypoint>,
                                                  closest: nat)
    requires IsRoot(root) && closest < |path|
    ensures IsClosest(Distances(root, position, path), closest) <==>
            (forall j :: 0 <= j < |path| ==> SquareDistance(position, path[closest]) <= SquareDistance(position, path[j])) &&
            (forall j :: 0 <= j < closest ==> SquareDistance(position, path[closest]) < SquareDistance(position, path[j]))
  {
    var dist := Distances(root, position, path);
    DistancesAreRoots(root, position, path);
    forall j | 0 <= j < |path|
      ensures dist[closest] <= dist[j] <==> SquareDistance(position, path[closest]) <= SquareDistance(position, path[j])
      ensures dist[closest] < dist[j] <==> SquareDistance(position, path[closest]) < SquareDistance(position, path[j])
    {
      SquaresOrdered(dist[closest], dist[j]);
    }
  }
}
