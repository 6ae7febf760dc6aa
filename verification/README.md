# Delivery route optimisation — Dafny model

This project models the algorithmic core of `RootOptimization.c`, a small
delivery-route planner. The core has three parts:

- **Registry and distance matrix** (module `Registry`). This is an ordered table of up to
  `MAX_POINTS` (20) named delivery points plus a 20 x 20 integer distance matrix.
  `init_system` zeroes the matrix. `add_delivery_point` appends a name. `get_index` is a
  linear first-match lookup that returns -1 for an unknown name. `set_distance` writes both
  (i, j) and (j, i), and does nothing at all when either name is unknown.
- **Greedy nearest-neighbour route** (module `Route`). `calculate_route` starts at the start
  point and takes `count - 1` steps. Each step moves to the unvisited point with the smallest
  *positive* distance from the current point. A distance of 0 means "no edge". The strict `<`
  in the scan makes the lowest index win a tie. A step that finds no candidate changes nothing,
  so the route may end up shorter than the number of points. The distances of the chosen legs
  are summed.
- **Array-backed binary min-heap** (module `Heap`), keyed by an integer `time`, and the
  **arrival scheduling** that uses it (module `Arrival`). Every route stop is pushed with a
  simulated traffic delay `rand() % 20 + 1`, and the heap is then drained.

The model works on values. A heap is the occupied prefix `heap[0..size)` of the C array,
held as a sequence. The registry is a datatype holding the name table and the matrix.
Operations return new values instead of writing through pointers. `heapify_up` is a loop, as
in C. `heapify_down` is a recursive method, as in C. The greedy inner scan and the
`count - 1` outer steps are loops with the same branches and comparisons as the C code.

Each operation is specified against an independent description:

- The heap is checked against the heap-order predicate and the multiset of its entries.
- The route is checked against `IsGreedyRoute`, a declarative statement of "each stop is the
  nearest candidate, ties to the lowest index, stop when none is left". It is also checked
  against `PathLength`, the sum of the leg weights.
- Lookups are checked against first-match membership.

Two behaviours of the C code are worth stating up front:

- `push`, `add_delivery_point` and `pop` have no capacity or emptiness checks in C. The model
  states these limits as preconditions.
- The greedy scan does not necessarily reach every point connected to the start. It stops
  making progress as soon as the current point has no unvisited point at a positive distance.

## Model

| member | source | states |
|---|---|---|
| Heap.Swap | RootOptimization.c:28-32 | the two slots are exchanged, every other slot is unchanged, and the multiset of entries is preserved |
| Heap.HeapifyUp | RootOptimization.c:34-39 | given a heap whose only possible violation is between `idx` and its parent, the result is a heap-ordered permutation of the input |
| Heap.HeapifyDown | RootOptimization.c:41-55 | given a heap whose only possible violation is between `idx` and its children, the result is a heap-ordered permutation of the input |
| Heap.SiftDownStep | RootOptimization.c:46-53 | swapping `idx` with its strictly smaller, smallest child moves the only possible violation down to that child |
| Heap.SiftDownDone | RootOptimization.c:46-51 | when no child is smaller than `idx`, the whole sequence is heap-ordered |
| Heap.Push | RootOptimization.c:57-62 | on a valid heap below capacity, the result is a valid heap one larger whose multiset gains exactly (address, time) |
| Heap.MoveLastToRoot | RootOptimization.c:65-68 | moving the last entry into the root and shrinking removes exactly the old root and leaves a violation only at the root |
| Heap.Pop | RootOptimization.c:64-70 | on a non-empty valid heap, it returns an entry whose time is at most every entry's time; the rest is a valid heap one smaller; the old multiset equals the rest plus the returned entry |
| Heap.RootIsMinimum | RootOptimization.c:65 | in a heap-ordered sequence the root's time is at most the time of every entry |
| Heap.RootBelow | RootOptimization.c:35 | in a heap-ordered sequence the root's time is at most the time of entry i, by following parents up to the root |
| Heap.Drain | RootOptimization.c:153-156 | popping until empty yields a permutation of the heap's entries with non-decreasing time |
| Registry.InitSystem | RootOptimization.c:73-80 | the new system has no points and an all-zero, hence symmetric, matrix |
| Registry.FindFrom | RootOptimization.c:88-92 | returns the first position at or after i holding the name, or -1 exactly when no later position holds it |
| Registry.GetIndex | RootOptimization.c:87-93 | returns the smallest position holding the name, or -1 exactly when the name is not registered |
| Registry.AddDeliveryPoint | RootOptimization.c:82-85 | appends the name without a duplicate check and leaves the matrix untouched; a name not registered before then resolves to the old count, and every name already registered keeps its position |
| Registry.SetDistance | RootOptimization.c:95-102 | when both names resolve to i and j, cells (i,j) and (j,i) become dist and every other cell is unchanged; otherwise the system is unchanged; a symmetric matrix stays symmetric |
| Registry.Register | RootOptimization.c:73-85 | initialising and then adding names in order gives a table equal to the name list, over the zero matrix |
| Registry.RegisterRoundTrip | RootOptimization.c:82-93 | after registering distinct names, each name maps back to its insertion position |
| Registry.RegisterDuplicateFirst | RootOptimization.c:87-93 | when a name is registered twice, the lookup returns the first copy's position |
| Route.NearestUnvisited | RootOptimization.c:122-128 | returns the unvisited point with the smallest positive distance from `cur`, lowest index on a tie, or None exactly when there is no such point |
| Route.ExtendRoute | RootOptimization.c:129-134 | appending the nearest candidate keeps every step greedy and adds that leg's distance to the path length |
| Route.CalculateRoute | RootOptimization.c:104-135 | None exactly when the start name is unknown; otherwise the greedy route from the start's first index, and a total equal to the sum of its leg distances |
| Route.GreedyRouteShape | RootOptimization.c:117-133 | a greedy route never repeats a point, every leg has a positive distance, and its length is at least its number of legs |
| Route.PositiveLegs | RootOptimization.c:124-131 | a route whose legs are all positive has a path length of at least its number of legs |
| Route.NearestUnique | RootOptimization.c:123-128 | at most one point is the nearest candidate, because the strict comparison breaks ties toward the lowest index |
| Route.GreedyRouteUnique | RootOptimization.c:104-135 | the graph and the start point determine the greedy route: two greedy routes from the same start are equal |
| Route.NextIsCandidate | RootOptimization.c:121-134 | a greedy route cannot end while a route that agrees with it so far still has a candidate next stop |
| Route.ExampleRoute | RootOptimization.c:104-135 | with A-B = 5, A-C = 2, B-C = 1 and start A, the greedy route is A, C, B with total 3 |
| Arrival.TrafficTime | RootOptimization.c:148 | a non-negative draw gives a delay between 1 and 20 that is one more than the draw's remainder modulo 20 |
| Arrival.ScheduleArrivals | RootOptimization.c:144-156 | pushing every (stop, delay) pair and draining yields those pairs as a permutation, ordered by non-decreasing delay |
| Arrival.PlanDeliveries | RootOptimization.c:104-156 | None exactly when the start is unknown; otherwise the greedy route, its length, and the route's stops with their delays in non-decreasing delay order, each delay within 1..20 |
| Arrival.SortedUnique | RootOptimization.c:153-156 | when the delays are distinct, the time-sorted permutation is unique, so the drain order is fully determined |
| Arrival.SameHead | RootOptimization.c:154 | two time-sorted permutations of the same entries, one of them strictly sorted, begin with the same entry |
| Arrival.DrainExample | RootOptimization.c:147-156 | stops A, B, C, D with delays 5, 3, 8, 1 come out as D(1), B(3), A(5), C(8) |

## Left out

- Terminal input and output (`main`, `scanf`, `fgets`, `getchar`, `printf`) is not modelled. The model only returns the data that the C code prints.
- `srand(time(0))` and `rand()` are not modelled: they are a wall-clock-seeded random source. `PlanDeliveries` takes the raw non-negative draws as a parameter, and `TrafficTime` applies `% 20 + 1` to them.
- C string handling (`char[50]` buffers, `strcpy`, `strcmp`) is not modelled. Names are Dafny strings compared by equality, and buffer overflow of long names is out of scope.
- Route.NearestUnvisited: the C scan starts from the sentinel `min_dist = INT_MAX` and compares with a strict `<`, so a distance of exactly `INT_MAX` is never chosen. The model has no such sentinel and treats every positive distance as an edge.
- Route.CalculateRoute: the sum `total_distance` uses unbounded integers; C `int` overflow is not modelled.
- Heap.Push: the capacity limit is a precondition. The C code has no check and writes past the array when the heap is full; it has no error path for this.
- Heap.Pop: non-emptiness is a precondition. The C code reads `heap[-1]` on an empty heap; it has no error path for this.
- Registry.AddDeliveryPoint: the capacity limit is a precondition. The C code has no check and writes past the name table when it is full; it has no error path for this.
- Array slots at or beyond `size` are not modelled. The C code never reads them, even though `pop` leaves a stale copy behind.
