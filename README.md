# Travel Planner route engine in Dafny

This is a model of the route engine of the Travel Planner back end. It has
three parts:

- **Graph**: an in-memory graph of cities. Each undirected route is stored as
  two half-edges, one in the adjacency list of each endpoint. Each half-edge
  carries an integer distance and an integer cost. A separate map holds each
  city's last registered coordinates.
- **Dijkstra.shortestPath**: the route with the least total distance. It uses
  a priority queue of (city, distance) entries, skips stale entries, and
  stops when the destination is polled.
- **BellmanFord.shortestPathByCost**: the route with the least total cost.
  It runs |V| − 1 rounds of relaxation over every half-edge of every city.

Both searches record a predecessor for each city. They rebuild the route by
following predecessors back from the destination, and both report the same
four kinds of result:

- the empty path with the sentinel `Integer.MAX_VALUE` when the source is
  unknown or the destination is unreachable;
- a `NullPointerException` when the source is known but the destination is
  not;
- `[src]` at weight 0 when the source is the destination;
- otherwise a path from the source to the destination and its weight.

The modules are:

- `TravelGraph` (`graph.dfy`): the `Graph` class. Its two maps are fields
  that `AddEdge` and `AddCityCoordinates` update. The class invariant is that
  every half-edge is matched by its mirror image, counted with multiplicity.
- `Walks` (`walks.dfy`): walks through the graph and their weight under the
  distance or the cost metric. A step between two cities weighs as much as
  the lightest half-edge joining them. The module also proves that any walk
  can be cut down to one of at most |V| cities that weighs no more.
- `Routes` (`routes.dfy`):
  - the `Route`/`Outcome` result;
  - the predecessor-map invariant `PrevTree` that both searches keep;
  - the shared reconstruction loop `Reconstruct`;
  - the predicate `IsLightestRoute`, which says what a correct answer is;
  - the predicate `OnlyLowered`: recorded weights never increase, and a
    predecessor changes only together with a strict decrease.
- `Dijkstra` (`dijkstra.dfy`):
  - the queue is a `seq<Node>`, and polling takes any entry of least
    distance, so the tie order stays open;
  - the main loop (`Search`), one poll (`PollNext`) and the edge loop
    (`RelaxNeighbors`, `RelaxEdge`) are methods with their invariants;
  - the proof that the distance of a polled destination bounds every walk
    uses a ghost settled set and the lemma `QueueBoundsWalks`.
- `BellmanFord` (`bellman_ford.dfy`):
  - the rounds, the loop over the cities and the edge loop are methods;
  - the cities of a round are visited in an unspecified order, like Java's
    `HashSet` iteration;
  - the invariant `CoversWalks` says that after `r` rounds every walk of at
    most `r` steps from the source costs at least what is recorded for its
    end.

Integers are unbounded. The sentinel `MaxValue` is `0x7fff_ffff`.

## Model

| member | source | states |
|---|---|---|
| TravelGraph.Graph.constructor | TravelPlanner2/backend/src/travel/Graph.java:6-8 | A new graph has no adjacency lists and no coordinates, and it satisfies the symmetry invariant. |
| TravelGraph.Graph.AddCityCoordinates | TravelPlanner2/backend/src/travel/Graph.java:28-30 | The city's coordinates are replaced by the new pair, so the last write wins. Every other entry and the adjacency map are unchanged. The city joins the city names. Symmetry is kept. |
| TravelGraph.Graph.GetCoordinates | TravelPlanner2/backend/src/travel/Graph.java:35-37 | Returns a value exactly when coordinates were registered for the city, and then the last registered pair. `None` stands for Java's `null`. |
| TravelGraph.Graph.AddEdge | TravelPlanner2/backend/src/travel/Graph.java:42-45 | Exactly one half-edge `(dest, distance, cost)` is appended at the end of the list of `src`, and `(src, distance, cost)` at the end of the list of `dest`. Missing lists are created. Nothing is deduplicated, so a self-route adds both half-edges to the same list. No other list changes and the coordinates are untouched. The city names gain `src` and `dest`. The symmetry invariant is kept. |
| TravelGraph.AddRoute | TravelPlanner2/backend/src/travel/Graph.java:43-44 | Value-level form of addEdge's two `computeIfAbsent(...).add(...)` calls. The keys gain `src` and `dest`. Each list gains exactly its appended half-edges, and two of them when `src == dest`. Every other list is unchanged. |
| TravelGraph.AddRouteCount | TravelPlanner2/backend/src/travel/Graph.java:43-44 | Adding a route raises the multiplicity of `Edge(dest, d, c)` in the list of `src` by one, and of `Edge(src, d, c)` in the list of `dest` by one. All other multiplicities stay the same. |
| TravelGraph.AddRouteKeepsSymmetry | TravelPlanner2/backend/src/travel/Graph.java:40-45 | If every half-edge is matched by its mirror with equal multiplicity before addEdge, the same holds after it. This includes self-routes. |
| TravelGraph.Graph.AdjList | TravelPlanner2/backend/src/travel/Graph.java:47-49 | Every city in the returned adjacency map is a known city, and in a valid graph every neighbour named in a list is itself a key of the map. |
| TravelGraph.Graph.CityNames | TravelPlanner2/backend/src/travel/Graph.java:55-59 | The union of the key sets of both maps: a city is a name exactly when it has an adjacency list or registered coordinates. |
| TravelGraph.SymmetricNeighborsListed | TravelPlanner2/backend/src/travel/Dijkstra.java:65 | If the map is symmetric, then every neighbour named in a list has a list of its own. So looking up a neighbour's recorded distance or cost never finds a missing entry. |
| Walks.MinWeightTo | TravelPlanner2/backend/src/travel/Dijkstra.java:61-65 | Among the half-edges of one list that lead to `v`, it returns the least weight. It returns a value exactly when such a half-edge exists, the value is attained by one of them, and no other is lighter. Parallel routes are all relaxed, so the lightest one decides. |
| Walks.StepWeightIsLightest | TravelPlanner2/backend/src/travel/Dijkstra.java:61-65 | The weight of a step from `u` to `v` is at most that of every half-edge from `u` to `v`, and equal to one of them. |
| Walks.Shortcut | TravelPlanner2/backend/src/travel/BellmanFord.java:26-27 | With non-negative weights, any walk among the known cities can be replaced by one between the same endpoints with at most as many cities as the graph knows that weighs no more. This is why one round fewer than the number of cities suffice. |
| Walks.WalkStaysListed | TravelPlanner2/backend/src/travel/BellmanFord.java:12-13 | A walk that starts at a known city only visits cities of `getCityNames()`. |
| Routes.SingleRouteStep | TravelPlanner2/backend/src/travel/Graph.java:42-45 | In the graph built by one addEdge(u, v, d, c) on an empty graph, every step of a walk weighs `d` by distance and `c` by cost. |
| Routes.SingleRouteWalkWeight | TravelPlanner2/backend/src/travel/Graph.java:42-45 | In that graph a walk of `k` steps weighs `k` times the route's weight. |
| Routes.SingleRouteBounds | TravelPlanner2/backend/src/travel/Graph.java:42-45 | In that graph, with `u != v` and a non-negative weight, `[u, v]` is a walk from `u` to `v` weighing exactly the route's weight, and no walk from `u` to `v` weighs less. |
| Routes.SingleRouteOfMetric | TravelPlanner2/backend/src/travel/Dijkstra.java:27-97 | In that graph, with `u != v` and a weight in [0, MaxValue), `[u, v]` is a lightest route from `u` to `v`, and every lightest route weighs exactly the route's weight. |
| Routes.SingleRoute | TravelPlanner2/backend/src/travel/BellmanFord.java:9-72 | A single addEdge(u, v, d, c) on an empty graph, with `u != v` and `0 <= d, c < MaxValue`, pins the searches' answers: `([u, v], d)` is a lightest route by distance and `([u, v], c)` a cheapest route by cost, and every route meeting either specification weighs `d`, respectively costs `c`. |
| Routes.InitialPrevTree | TravelPlanner2/backend/src/travel/Dijkstra.java:33-43 | Before any relaxation only the source has a finite weight (0) and no city has a predecessor. This state satisfies the predecessor invariant. |
| Routes.Relax | TravelPlanner2/backend/src/travel/Dijkstra.java:63-67 | A strict relaxation keeps the predecessor invariant. The neighbour gets `best[u] + w(e)`, which is strictly less than before, and gets `u` as predecessor. The invariant says that every recorded weight lies in [0, MaxValue] and that every city with a finite weight other than the source has a predecessor. It also says that every predecessor is adjacent and pays for its step. |
| Routes.LowerStep | TravelPlanner2/backend/src/travel/Dijkstra.java:65-67 | A strict decrease that also sets the predecessor keeps `OnlyLowered`. Weights never rise, and a predecessor is set or replaced only where the weight strictly fell, so a tie never replaces `prev`. |
| Routes.Reconstruct | TravelPlanner2/backend/src/travel/Dijkstra.java:73-96 | An unknown destination gives `NullPointer`, and one at the sentinel gives the empty path with the sentinel. Otherwise the result is a walk from `src` to `dest` that weighs at most the recorded weight, which it reports. For `dest == src` the result is `[src]` at 0. The loop provably ends at `src`. |
| Routes.ReconstructedIsLightest | TravelPlanner2/backend/src/travel/BellmanFord.java:48-71 | A reconstructed route whose recorded weight (at most the sentinel) bounds every walk to `dest` is a lightest route. Its weight is at most the sentinel, its path is empty exactly when the weight is the sentinel, a non-empty path weighs exactly the reported weight, and no walk is lighter. |
| Dijkstra.MinimumExists | TravelPlanner2/backend/src/travel/Dijkstra.java:19-21 | A non-empty queue has an entry whose distance is at most every other entry's, which is what `poll` returns under `compareTo`. |
| Dijkstra.RemoveAt | TravelPlanner2/backend/src/travel/Dijkstra.java:46 | Polling entry `i` removes exactly that entry. The queue shrinks by one, the other entries keep their order, and every other entry stays queued. |
| Dijkstra.QueueBoundsWalks | TravelPlanner2/backend/src/travel/Dijkstra.java:45-71 | While the destination is unsettled, each walk to it that is lighter than the sentinel has some queued entry whose distance is at most the walk's weight. |
| Dijkstra.DropStale | TravelPlanner2/backend/src/travel/Dijkstra.java:48-50 | Dropping an entry whose distance exceeds the city's recorded distance keeps the main-loop invariant with nothing else changed. |
| Dijkstra.DestinationReached | TravelPlanner2/backend/src/travel/Dijkstra.java:52-54 | When the polled minimal entry is the destination at its recorded distance, that distance bounds every walk from the source to the destination. |
| Dijkstra.SettleIsolated | TravelPlanner2/backend/src/travel/Dijkstra.java:57-59 | A polled city without an adjacency list is settled as it is, and the invariant is kept. |
| Dijkstra.BeginExpansion | TravelPlanner2/backend/src/travel/Dijkstra.java:46-61 | A minimal entry that is not stale starts the expansion of its city with the edge loop's invariant. |
| Dijkstra.RelaxStep | TravelPlanner2/backend/src/travel/Dijkstra.java:63-68 | A strict improvement through half-edge `j` sets the distance, the predecessor and a new queue entry of the neighbour. It keeps the edge loop's invariant, and the first `j + 1` half-edges count as relaxed. |
| Dijkstra.RelaxEdge | TravelPlanner2/backend/src/travel/Dijkstra.java:62-69 | One iteration of the edge loop. Afterwards half-edge `j` is relaxed, the invariant holds, weights only went down, and the predecessor changed only where the weight strictly fell. |
| Dijkstra.FinishExpansion | TravelPlanner2/backend/src/travel/Dijkstra.java:61-70 | Once every half-edge of `u` is relaxed, `u` can be added to the settled cities with the main-loop invariant intact. |
| Dijkstra.RelaxNeighbors | TravelPlanner2/backend/src/travel/Dijkstra.java:61-70 | After the edge loop over `u`, the main-loop invariant holds with `u` settled. Recorded distances only decreased, and predecessors changed only with a strict decrease. |
| Dijkstra.SettleShrinks | TravelPlanner2/backend/src/travel/Dijkstra.java:45-71 | Settling a new city shrinks the set of unsettled cities, and settling a settled one changes nothing. Together these give the main loop's termination. |
| Dijkstra.PollNext | TravelPlanner2/backend/src/travel/Dijkstra.java:46-70 | One pass of the main loop takes a minimal entry. On the destination it stops with the state unchanged and with the destination's distance bounding every walk to it. Otherwise it keeps the invariant and either settles a new city or shortens the queue. Distances only decrease. |
| Dijkstra.InitialSearch | TravelPlanner2/backend/src/travel/Dijkstra.java:33-43 | The source at 0, every other city at the sentinel and the queue `[(src, 0)]` satisfy the main-loop invariant. |
| Dijkstra.QueueExhausted | TravelPlanner2/backend/src/travel/Dijkstra.java:45-78 | When the queue runs empty first, the destination's distance is the sentinel and no walk to it is lighter than the sentinel. |
| Dijkstra.Search | TravelPlanner2/backend/src/travel/Dijkstra.java:45-71 | After the main loop the predecessor invariant holds. The destination's recorded distance bounds every walk to it, and distances only decreased. |
| Dijkstra.ShortestPath | TravelPlanner2/backend/src/travel/Dijkstra.java:27-97 | An unknown source gives `([], MaxValue)`. A known source with an unknown destination gives `NullPointer`. Otherwise the result is a lightest route by distance: its weight never exceeds `MaxValue`, its path is empty exactly at `MaxValue`, a non-empty path is a walk from `src` to `dest` weighing exactly the reported distance, and no walk weighs less. For `dest == src` it is `([src], 0)`. |
| BellmanFord.InitialCover | TravelPlanner2/backend/src/travel/BellmanFord.java:16-24 | With the source at 0, every walk of zero steps from the source is covered. |
| BellmanFord.LowerKeepsCover | TravelPlanner2/backend/src/travel/BellmanFord.java:39-40 | Lowering one recorded cost keeps every walk bound already established. |
| BellmanFord.SkipStep | TravelPlanner2/backend/src/travel/BellmanFord.java:35-43 | A half-edge that leaves a city still at the sentinel, or offers no strict improvement, counts as relaxed with nothing changed. |
| BellmanFord.RelaxStep | TravelPlanner2/backend/src/travel/BellmanFord.java:37-41 | A strict improvement from a finite city through half-edge `j` keeps the edge loop's invariant, and half-edge `j` counts as relaxed. |
| BellmanFord.CoverCity | TravelPlanner2/backend/src/travel/BellmanFord.java:28-45 | Once all half-edges of a city are relaxed, walks whose last step leaves that city are covered. |
| BellmanFord.RelaxCity | TravelPlanner2/backend/src/travel/BellmanFord.java:29-44 | After the edge loop of one city, the predecessor invariant holds and the city counts as processed for this round. Costs only decreased, and predecessors changed only with a strict decrease. A city without a list, or one whose cost is the sentinel, leaves costs and predecessors exactly unchanged, so relaxation happens only out of cities with a finite cost. |
| BellmanFord.NextRound | TravelPlanner2/backend/src/travel/BellmanFord.java:27-46 | A round that processed every city covers every walk with one more step. |
| BellmanFord.RelaxRound | TravelPlanner2/backend/src/travel/BellmanFord.java:28-45 | After one round over all cities, in any order, walks of up to `r + 1` steps are covered. The predecessor invariant holds, and costs only decreased. |
| BellmanFord.CoversAll | TravelPlanner2/backend/src/travel/BellmanFord.java:26-46 | After one round fewer than the number of cities the destination's recorded cost bounds every walk from the source to it. |
| BellmanFord.ShortestPathByCost | TravelPlanner2/backend/src/travel/BellmanFord.java:9-72 | An unknown source gives `([], MaxValue)`. A known source with an unknown destination gives `NullPointer`. Otherwise the result is a cheapest route by cost: its weight never exceeds `MaxValue`, its path is empty exactly at `MaxValue`, a non-empty path is a walk from `src` to `dest` costing exactly the reported cost, and no walk costs less. For `dest == src` it is `([src], 0)`. |

## Left out

- Dijkstra.ShortestPath: does not model Java's 32-bit `int` wrap-around in `distance + edge.distance`; sums are exact. It also requires non-negative distances. With a negative distance neither the queue-based bound nor the termination of the reconstruction loop is guaranteed.
- BellmanFord.ShortestPathByCost: does not model 32-bit wrap-around in `cost + edge.cost`. It requires non-negative costs. Every route is stored in both directions, so a negative cost reachable from `src` already forms a negative cycle u→v→u. Then `prev` can hold a two-city cycle that misses `src`, and the reconstruction loop (BellmanFord.java:56-60) may not end. A negative cost that `src` cannot reach does not change the Java result, but the model excludes it too.
- Dijkstra.ShortestPath and BellmanFord.ShortestPathByCost: "reachable" means reachable by a walk lighter than `Integer.MAX_VALUE`. When the lightest walk weighs `MaxValue` or more, the contract forces the no-route answer `([], MaxValue)`. Java gives the same answer as long as no relaxation sum `best[u] + w` (Dijkstra.java:63, BellmanFord.java:37) exceeds `MAX_VALUE`. Once one does, the wrapped negative value can change the answer for any destination, even one whose lightest walk is far below the sentinel: the result can carry a wrong weight, or the reconstruction loop can cycle forever. The model's exact sums do not capture this.
- Routes.Reconstruct: the path check after the loop (Dijkstra.java:88-90 and BellmanFord.java:62-65) is proved never to fire, so it appears as an assertion rather than as a branch.
- TravelGraph.Graph.AdjList returns the adjacency map as a value. The Java getter hands out the live mutable map; changes made through it by other code are not modelled.
- Coordinates are a pair of `real`, not `double[]`. Floating-point rounding and the aliasing of the returned array are not modelled, and neither is the `%.4f` formatting done elsewhere.
- `Edge` is a value, not an object with identity. Two half-edges with the same fields are counted as copies.
- Step weight: a step between two cities weighs as much as the lightest half-edge joining them. That is the edge the searches end up using, because every parallel half-edge is relaxed.
- The servlets (`TravelPlannerServlet.java`, `AddCityServlet.java`, `GetCitiesServlet.java`), `script.js`, JSON encoding, file loading and request concurrency are not part of this model.
