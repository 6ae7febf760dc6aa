/** Arrival scheduling: every stop of the route is pushed into a fresh heap
    with a simulated traffic delay, and the heap is drained, giving the stops
    in order of increasing delay. The random draws are supplied by the
    caller. */
module Arrival {
  import opened Wrappers
  import opened Heap
  import opened Registry
  import opened Route

  /** `(rand() % 20) + 1` for a non-negative draw. */
  function TrafficTime(draw: nat): (t: int)
    ensures 1 <= t <= 20
    ensures t - 1 == draw % 20
  {
    draw % 20 + 1
  }

  /** The (address, delay) entries pushed for a list of stops. */
  function Entries(stops: seq<string>, delays: seq<int>): seq<HeapNode>
    requires |stops| == |delays|
  {
    seq(|stops|, i requires 0 <= i < |stops| => HeapNode(stops[i], delays[i]))
  }

  /** The addresses of the stops of a route. */
  function Stops(s: DeliverySystem, route: seq<nat>): seq<string>
    requires InRange(s, route)
  {
    seq(|route|, i requires 0 <= i < |route| => s.points[route[i]])
  }

  /** Pushes every (stop, delay) pair in order into an empty heap, then pops
      until the heap is empty. */
  method ScheduleArrivals(stops: seq<string>, delays: seq<int>) returns (arrivals: seq<HeapNode>)
    requires |stops| == |delays| <= MaxPoints
    ensures multiset(arrivals) == multiset(Entries(stops, delays))
    ensures SortedByTime(arrivals)
  {
    var heap := MinHeap([]);
    var i := 0;
    while i < |stops|
      invariant i <= |stops|
      invariant heap.Valid() && heap.Size() == i
      invariant multiset(heap.heap) == multiset(Entries(stops[..i], delays[..i]))
    {
      assert Entries(stops[..i + 1], delays[..i + 1])
          == Entries(stops[..i], delays[..i]) + [HeapNode(stops[i], delays[i])];
      heap := Push(heap, stops[i], delays[i]);
      i := i + 1;
    }
    assert stops[..i] == stops && delays[..i] == delays;
    arrivals := Drain(heap);
  }

  /** Everything `calculate_route` computes: the greedy route, its length,
      and the stops in order of their simulated arrival delay. */
  datatype Plan = Plan(route: seq<nat>, total: int, arrivals: seq<HeapNode>)

  /** The route computation followed by the arrival scheduling; the i-th stop
      of the route gets the delay made from `draws[i]`. */
  method PlanDeliveries(s: DeliverySystem, start: string, draws: seq<nat>) returns (res: Option<Plan>)
    requires s.Valid() && s.Count() <= |draws|
    ensures res.None? <==> start !in s.points
    ensures res.Some? ==>
      var p := res.value;
      && IsGreedyRoute(s, GetIndex(s, start), p.route)
      && p.total == PathLength(s, p.route)
      && multiset(p.arrivals) == multiset(Entries(Stops(s, p.route), Delays(draws[..|p.route|])))
      && SortedByTime(p.arrivals)
      && forall i :: 0 <= i < |p.arrivals| ==> 1 <= p.arrivals[i].time <= 20
  {
    var r := CalculateRoute(s, start);
    if r.None? {
      return None;
    }
    var (route, total) := r.value;
    var delays := Delays(draws[..|route|]);
    var arrivals := ScheduleArrivals(Stops(s, route), delays);
    forall i | 0 <= i < |arrivals|
      ensures 1 <= arrivals[i].time <= 20
    {
      assert arrivals[i] in multiset(Entries(Stops(s, route), delays));
    }
    return Some(Plan(route, total, arrivals));
  }

  /** One traffic delay per draw. */
  function Delays(draws: seq<nat>): (d: seq<int>)
    ensures forall i :: 0 <= i < |d| ==> 1 <= d[i] <= 20
  {
    seq(|draws|, i requires 0 <= i < |draws| => TrafficTime(draws[i]))
  }

  /** Times strictly increase along `s`. */
  ghost predicate StrictlySortedByTime(s: seq<HeapNode>) {
    forall i, j :: 0 <= i < j < |s| ==> s[i].time < s[j].time
  }

  /** A sequence sorted by time is the only ordering of its entries when the
      times are distinct. */
  lemma {:induction false} SortedUnique(a: seq<HeapNode>, b: seq<HeapNode>)
    requires StrictlySortedByTime(a) && SortedByTime(b)
    requires multiset(a) == multiset(b)
    ensures a == b
    decreases |a|
  {
    if a != [] {
      assert |b| == |a| by {
        assert |multiset(b)| == |multiset(a)|;
      }
      SameHead(a, b);
      MultisetTail(a);
      MultisetTail(b);
      SortedUnique(a[1..], b[1..]);
      assert a == [a[0]] + a[1..];
      assert b == [b[0]] + b[1..];
    }
  }

  /** Both sequences start with the entry of least time, which the strict
      order makes unique. */
  lemma SameHead(a: seq<HeapNode>, b: seq<HeapNode>)
    requires StrictlySortedByTime(a) && SortedByTime(b)
    requires multiset(a) == multiset(b) && a != [] && b != []
    ensures a[0] == b[0]
  {
    assert b[0] in multiset(a);
    var i :| 0 <= i < |a| && a[i] == b[0];
    assert a[0] in multiset(b);
    var j :| 0 <= j < |b| && b[j] == a[0];
    assert a[0].time <= b[0].time;
  }

  lemma MultisetTail(a: seq<HeapNode>)
    requires a != []
    ensures multiset(a[1..]) == multiset(a) - multiset{a[0]}
  {
    assert a == [a[0]] + a[1..];
  }

  /** Stops A, B, C, D with delays 5, 3, 8, 1 arrive as D, B, A, C. */
  lemma DrainExample(arrivals: seq<HeapNode>)
    requires multiset(arrivals) == multiset(Entries(["A", "B", "C", "D"], [5, 3, 8, 1]))
    requires SortedByTime(arrivals)
    ensures arrivals == [HeapNode("D", 1), HeapNode("B", 3), HeapNode("A", 5), HeapNode("C", 8)]
  {
    var e := Entries(["A", "B", "C", "D"], [5, 3, 8, 1]);
    assert e == [HeapNode("A", 5), HeapNode("B", 3), HeapNode("C", 8), HeapNode("D", 1)];
    var want := [HeapNode("D", 1), HeapNode("B", 3), HeapNode("A", 5), HeapNode("C", 8)];
    assert multiset(want) == multiset(e);
    SortedUnique(want, arrivals);
  }
}
