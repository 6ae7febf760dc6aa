/** Greedy nearest-neighbour route construction over the distance matrix.
    A distance of 0 (or below) means "no edge"; among the unvisited points
    with a positive distance from the current point the nearest is taken, the
    lowest index winning a tie. */
module Route {
  import opened Wrappers
  import opened Registry

  function Dist(s: DeliverySystem, i: nat, j: nat): int
    requires s.Valid() && i < MaxPoints && j < MaxPoints
  {
    s.distances[i][j]
  }

  /** `j` is registered, not yet on `route`, and joined to `cur` by an edge. */
  ghost predicate IsCandidate(s: DeliverySystem, route: seq<nat>, cur: nat, j: nat)
    requires s.Valid() && cur < MaxPoints
  {
    j < s.Count() && j !in route && Dist(s, cur, j) > 0
  }

  /** `j` is the candidate with the smallest distance from `cur`; any other
      candidate is farther, or equally far and at a higher index. */
  ghost predicate IsNearest(s: DeliverySystem, route: seq<nat>, cur: nat, j: nat)
    requires s.Valid() && cur < MaxPoints
  {
    && IsCandidate(s, route, cur, j)
    && forall k: nat :: IsCandidate(s, route, cur, k) ==>
         Dist(s, cur, j) <= Dist(s, cur, k) && (k < j ==> Dist(s, cur, j) < Dist(s, cur, k))
  }

  ghost predicate NoCandidate(s: DeliverySystem, route: seq<nat>, cur: nat)
    requires s.Valid() && cur < MaxPoints
  {
    forall k: nat :: !IsCandidate(s, route, cur, k)
  }

  predicate InRange(s: DeliverySystem, route: seq<nat>) {
    forall k :: 0 <= k < |route| ==> route[k] < s.Count()
  }

  /** Every stop after the first is the nearest candidate from its
      predecessor, given the stops before it. */
  ghost predicate GreedySteps(s: DeliverySystem, route: seq<nat>)
    requires s.Valid() && InRange(s, route)
  {
    forall k :: 0 < k < |route| ==> IsNearest(s, route[..k], route[k - 1], route[k])
  }

  /** The route the greedy heuristic builds from `start`: it begins at
      `start`, every later stop is the nearest candidate from the stop before
      it, and it ends once every point is on it or no candidate is left. */
  ghost predicate IsGreedyRoute(s: DeliverySystem, start: nat, route: seq<nat>)
    requires s.Valid()
  {
    && 0 < |route| <= s.Count()
    && InRange(s, route)
    && route[0] == start
    && GreedySteps(s, route)
    && (|route| == s.Count() || NoCandidate(s, route, route[|route| - 1]))
  }

  /** Sum of the edge weights between consecutive stops. */
  function PathLength(s: DeliverySystem, route: seq<nat>): int
    requires s.Valid() && InRange(s, route)
  {
    if |route| <= 1 then 0
    else PathLength(s, route[..|route| - 1]) + Dist(s, route[|route| - 2], route[|route| - 1])
  }

  /** Appending the nearest candidate keeps every step greedy and adds that
      edge to the length. */
  lemma ExtendRoute(s: DeliverySystem, route: seq<nat>, x: nat)
    requires s.Valid() && 0 < |route| && InRange(s, route) && GreedySteps(s, route)
    requires IsNearest(s, route, route[|route| - 1], x)
    ensures InRange(s, route + [x]) && GreedySteps(s, route + [x])
    ensures PathLength(s, route + [x]) == PathLength(s, route) + Dist(s, route[|route| - 1], x)
  {
    var r := route + [x];
    assert r[..|route|] == route;
    forall k | 0 < k < |r|
      ensures IsNearest(s, r[..k], r[k - 1], r[k])
    {
      if k < |route| {
        assert r[..k] == route[..k];
      }
    }
  }

  /** One scan of the inner loop: the unvisited point with the smallest
      positive distance from `cur`, first index on a tie, or None. */
  method NearestUnvisited(s: DeliverySystem, visited: seq<bool>, ghost route: seq<nat>, cur: nat)
    returns (next: Option<nat>)
    requires s.Valid() && cur < s.Count() && |visited| == MaxPoints
    requires forall j :: 0 <= j < s.Count() ==> (visited[j] <==> j in route)
    ensures next.None? <==> NoCandidate(s, route, cur)
    ensures next.Some? ==> IsNearest(s, route, cur, next.value)
  {
    next := None;
    var minDist := 0;
    var j := 0;
    while j < s.Count()
      invariant j <= s.Count()
      invariant next.None? ==> forall k :: 0 <= k < j ==> !IsCandidate(s, route, cur, k)
      invariant next.Some? ==> next.value < j && IsCandidate(s, route, cur, next.value)
      invariant next.Some? ==> minDist == Dist(s, cur, next.value)
      invariant next.Some? ==> forall k :: 0 <= k < j && IsCandidate(s, route, cur, k) ==>
                  minDist <= Dist(s, cur, k) && (k < next.value ==> minDist < Dist(s, cur, k))
    {
      if !visited[j] && s.distances[cur][j] > 0 && (next.None? || s.distances[cur][j] < minDist) {
        minDist := s.distances[cur][j];
        next := Some(j);
      }
      j := j + 1;
    }
  }

  /** Resolves the start point (None when it is unknown), then runs
      `Count() - 1` greedy steps; a step that finds no candidate changes
      nothing. Returns the route and its accumulated distance. */
  method CalculateRoute(s: DeliverySystem, start: string) returns (res: Option<(seq<nat>, int)>)
    requires s.Valid()
    ensures res.None? <==> start !in s.points
    ensures res.Some? ==> IsGreedyRoute(s, GetIndex(s, start), res.value.0)
    ensures res.Some? ==> res.value.1 == PathLength(s, res.value.0)
  {
    var n := s.Count();
    var startIdx := GetIndex(s, start);
    if startIdx == -1 {
      return None;
    }
    var current: nat := startIdx;
    var visited := seq(MaxPoints, _ => false)[current := true];
    var route := [current];
    var total := 0;
    var step := 0;
    while step < n - 1
      invariant step <= n - 1
      invariant 1 <= |route| <= step + 1
      invariant route[0] == startIdx && current == route[|route| - 1]
      invariant InRange(s, route)
      invariant |visited| == MaxPoints
      invariant forall j :: 0 <= j < n ==> (visited[j] <==> j in route)
      invariant GreedySteps(s, route)
      invariant |route| == step + 1 || NoCandidate(s, route, current)
      invariant total == PathLength(s, route)
    {
      var next := NearestUnvisited(s, visited, route, current);
      if next.Some? {
        var route' := route + [next.value];
        ExtendRoute(s, route, next.value);
        visited := visited[next.value := true];
        total := total + s.distances[current][next.value];
        current := next.value;
        route := route';
      }
      step := step + 1;
    }
    return Some((route, total));
  }

  /** A greedy route never repeats a point, every leg has a positive
      distance, and so its length is at least the number of legs. */
  lemma {:induction false} GreedyRouteShape(s: DeliverySystem, start: nat, route: seq<nat>)
    requires s.Valid() && IsGreedyRoute(s, start, route)
    ensures forall a, b :: 0 <= a < b < |route| ==> route[a] != route[b]
    ensures forall k :: 0 < k < |route| ==> Dist(s, route[k - 1], route[k]) > 0
    ensures PathLength(s, route) >= |route| - 1
  {
    forall a, b | 0 <= a < b < |route|
      ensures route[a] != route[b]
    {
      assert IsNearest(s, route[..b], route[b - 1], route[b]);
      assert route[a] == route[..b][a];
    }
    forall k | 0 < k < |route|
      ensures Dist(s, route[k - 1], route[k]) > 0
    {
      assert IsNearest(s, route[..k], route[k - 1], route[k]);
    }
    PositiveLegs(s, route);
  }

  lemma {:induction false} PositiveLegs(s: DeliverySystem, route: seq<nat>)
    requires s.Valid() && InRange(s, route)
    requires forall k :: 0 < k < |route| ==> Dist(s, route[k - 1], route[k]) > 0
    ensures PathLength(s, route) >= |route| - 1
    decreases |route|
  {
    if 1 < |route| {
      var init := route[..|route| - 1];
      assert forall k :: 0 <= k < |init| ==> init[k] == route[k];
      PositiveLegs(s, init);
    }
  }

  /** At most one point is the nearest candidate. */
  lemma NearestUnique(s: DeliverySystem, route: seq<nat>, cur: nat, a: nat, b: nat)
    requires s.Valid() && cur < MaxPoints
    requires IsNearest(s, route, cur, a) && IsNearest(s, route, cur, b)
    ensures a == b
  {
  }

  /** The heuristic is deterministic: the graph and the start point fix the
      route. */
  lemma {:induction false} GreedyRouteUnique(s: DeliverySystem, start: nat, r1: seq<nat>, r2: seq<nat>)
    requires s.Valid() && IsGreedyRoute(s, start, r1) && IsGreedyRoute(s, start, r2)
    ensures r1 == r2
  {
    var m := if |r1| < |r2| then |r1| else |r2|;
    var k := 1;
    while k < m
      invariant 1 <= k <= m
      invariant r1[..k] == r2[..k]
    {
      assert IsNearest(s, r1[..k], r1[k - 1], r1[k]);
      assert IsNearest(s, r2[..k], r2[k - 1], r2[k]);
      assert r1[k - 1] == r1[..k][k - 1] == r2[..k][k - 1] == r2[k - 1];
      NearestUnique(s, r1[..k], r1[k - 1], r1[k], r2[k]);
      assert r1[..k + 1] == r1[..k] + [r1[k]];
      assert r2[..k + 1] == r2[..k] + [r2[k]];
      k := k + 1;
    }
    assert r1[k - 1] == r1[..k][k - 1] == r2[..k][k - 1] == r2[k - 1];
    NextIsCandidate(s, start, r1, r2, k);
    NextIsCandidate(s, start, r2, r1, k);
    assert |r1| == |r2|;
    assert r1 == r1[..k] && r2 == r2[..k];
  }

  /** When a sequence `stopped` agrees with a greedy route on its first
      `k` stops and has no more, the greedy route's next stop, if any, is a
      candidate after `stopped`. */
  lemma NextIsCandidate(s: DeliverySystem, start: nat, route: seq<nat>, stopped: seq<nat>, k: nat)
    requires s.Valid() && IsGreedyRoute(s, start, route)
    requires 0 < k <= |route| && k <= |stopped| && stopped[..k] == route[..k]
    ensures k == |stopped| && k < |route| ==> IsCandidate(s, stopped, stopped[k - 1], route[k])
  {
  }

  /** The system of three points A, B, C with A-B = 5, A-C = 2, B-C = 1. */
  function ExampleSystem(): (s: DeliverySystem)
    ensures s.Valid()
  {
    var s0 := Register(["A", "B", "C"]);
    SetDistance(SetDistance(SetDistance(s0, "A", "B", 5), "A", "C", 2), "B", "C", 1)
  }

  /** Starting at A, the greedy route is A, C, B with length 2 + 1 = 3. */
  lemma ExampleRoute()
    ensures GetIndex(ExampleSystem(), "A") == 0
    ensures IsGreedyRoute(ExampleSystem(), 0, [0, 2, 1])
    ensures PathLength(ExampleSystem(), [0, 2, 1]) == 3
  {
  }
}
