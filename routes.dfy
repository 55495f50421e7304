/** What both searches return, the predecessor map they build, and the shared
    reconstruction of the route from that map. */
module Routes {
  import opened TravelGraph
  import opened Walks

  /** Java's Integer.MAX_VALUE: the weight reported when there is no route. */
  const MaxValue: int := 0x7fff_ffff

  /** The `path` entry and the weight entry ("distance" or "cost") of the result map. */
  datatype Route = Route(path: seq<City>, weight: int)

  /** The result of a search: a route, or the NullPointerException thrown when
      the source is known but the destination is not. */
  datatype Outcome = Ok(route: Route) | NullPointer

  /** The result for an unknown source or an unreachable destination. */
  const NoRoute := Route([], MaxValue)

  /** What a correct answer for (`src`, `dest`) looks like: the weight fits
      in a Java `int` and never exceeds the sentinel; the path is empty
      exactly when the weight is the sentinel; a non-empty path is a walk from
      `src` to `dest` that weighs what is reported; and no walk from `src` to
      `dest` weighs less than what is reported (so the sentinel means that every
      walk weighs at least MaxValue, in particular when there is none). */
  ghost predicate IsLightestRoute(adj: map<City, seq<Edge>>, m: Metric, src: City, dest: City, r: Route)
  {
    && r.weight <= MaxValue
    && (r.path == [] <==> r.weight == MaxValue)
    && (r.path != [] ==> WalkBetween(adj, r.path, src, dest) && PathWeight(adj, r.path, m) == r.weight)
    && (forall p :: WalkBetween(adj, p, src, dest) ==> r.weight <= PathWeight(adj, p, m))
  }

  /** In the graph built by a single addEdge(u, v, d, c), every step weighs
      the route's weight under `m`. */
  lemma SingleRouteStep(u: City, v: City, d: int, c: int, m: Metric, x: City, y: City)
    requires u != v && Adjacent(AddRoute(map[], u, v, d, c), x, y)
    ensures StepWeight(AddRoute(map[], u, v, d, c), x, y, m) == Weight(Edge(v, d, c), m)
  {
    var adj := AddRoute(map[], u, v, d, c);
    var es := Adj(adj, x);
    assert es == [Edge(v, d, c)] || es == [Edge(u, d, c)];
  }

  /** In a graph where every step weighs `w`, a walk weighs its number of
      steps times `w`. */
  lemma {:induction false} UniformWalkWeight(adj: map<City, seq<Edge>>, m: Metric, w: int, p: seq<City>)
    requires forall x, y :: Adjacent(adj, x, y) ==> StepWeight(adj, x, y, m) == w
    requires IsWalk(adj, p)
    ensures PathWeight(adj, p, m) == (|p| - 1) * w
    decreases |p|
  {
    if |p| > 1 {
      var rest := p[1..];
      SubWalk(adj, p, 1, |p|);
      assert p[1..|p|] == rest;
      assert Adjacent(adj, p[0], p[1]);
      UniformWalkWeight(adj, m, w, rest);
      OneMoreStep(|rest| - 1, w);
    }
  }

  lemma OneMoreStep(k: int, w: int)
    ensures w + k * w == (k + 1) * w
  {
  }

  /** In the graph built by a single addEdge(u, v, d, c), a walk of `k` steps
      weighs `k` times the route's weight under `m`. */
  lemma SingleRouteWalkWeight(u: City, v: City, d: int, c: int, m: Metric, p: seq<City>)
    requires u != v && IsWalk(AddRoute(map[], u, v, d, c), p)
    ensures PathWeight(AddRoute(map[], u, v, d, c), p, m) == (|p| - 1) * Weight(Edge(v, d, c), m)
  {
    var adj := AddRoute(map[], u, v, d, c);
    forall x, y | Adjacent(adj, x, y) ensures StepWeight(adj, x, y, m) == Weight(Edge(v, d, c), m) {
      SingleRouteStep(u, v, d, c, m, x, y);
    }
    UniformWalkWeight(adj, m, Weight(Edge(v, d, c), m), p);
  }

  /** After a single addEdge(u, v, d, c) on an empty graph, with both
      weights non-negative and below the sentinel, the route `[u, v]` is a
      lightest route under either metric, and every lightest route weighs
      `d` by distance and `c` by cost. */
  lemma SingleRoute(u: City, v: City, d: int, c: int)
    requires u != v && 0 <= d < MaxValue && 0 <= c < MaxValue
    ensures IsLightestRoute(AddRoute(map[], u, v, d, c), Distance, u, v, Route([u, v], d))
    ensures IsLightestRoute(AddRoute(map[], u, v, d, c), Cost, u, v, Route([u, v], c))
    ensures forall r :: IsLightestRoute(AddRoute(map[], u, v, d, c), Distance, u, v, r) ==> r.weight == d
    ensures forall r :: IsLightestRoute(AddRoute(map[], u, v, d, c), Cost, u, v, r) ==> r.weight == c
  {
    SingleRouteOfMetric(u, v, d, c, Distance);
    SingleRouteOfMetric(u, v, d, c, Cost);
  }

  /** In that graph no walk from `u` to `v` weighs less than the route, and
      the direct walk `[u, v]` weighs exactly that. */
  lemma SingleRouteBounds(u: City, v: City, d: int, c: int, m: Metric)
    requires u != v && 0 <= Weight(Edge(v, d, c), m)
    ensures BoundsWalks(AddRoute(map[], u, v, d, c), m, u, v, Weight(Edge(v, d, c), m))
    ensures WalkBetween(AddRoute(map[], u, v, d, c), [u, v], u, v)
    ensures PathWeight(AddRoute(map[], u, v, d, c), [u, v], m) == Weight(Edge(v, d, c), m)
  {
    var adj := AddRoute(map[], u, v, d, c);
    var w := Weight(Edge(v, d, c), m);
    assert Adj(adj, u)[0].neighborCity == v;
    assert WalkBetween(adj, [u, v], u, v);
    SingleRouteWalkWeight(u, v, d, c, m, [u, v]);
    forall p | WalkBetween(adj, p, u, v) ensures w <= PathWeight(adj, p, m) {
      SingleRouteWalkWeight(u, v, d, c, m, p);
      OneMoreStep(|p| - 2, w);
    }
  }

  lemma SingleRouteOfMetric(u: City, v: City, d: int, c: int, m: Metric)
    requires u != v && 0 <= Weight(Edge(v, d, c), m) < MaxValue
    ensures IsLightestRoute(AddRoute(map[], u, v, d, c), m, u, v, Route([u, v], Weight(Edge(v, d, c), m)))
    ensures forall r :: IsLightestRoute(AddRoute(map[], u, v, d, c), m, u, v, r) ==> r.weight == Weight(Edge(v, d, c), m)
  {
    var adj := AddRoute(map[], u, v, d, c);
    SingleRouteBounds(u, v, d, c, m);
    forall r | IsLightestRoute(adj, m, u, v, r) ensures r.weight == Weight(Edge(v, d, c), m) {
      if r.path != [] {
        assert WalkBetween(adj, r.path, u, v);
      }
    }
  }

  /** No walk from `src` to `dest` weighs less than `b`. */
  ghost predicate BoundsWalks(adj: map<City, seq<Edge>>, m: Metric, src: City, dest: City, b: int)
  {
    forall p :: WalkBetween(adj, p, src, dest) ==> b <= PathWeight(adj, p, m)
  }

  /** A reconstructed route whose recorded weight bounds every walk is a
      lightest route. */
  lemma ReconstructedIsLightest(adj: map<City, seq<Edge>>, m: Metric, src: City, dest: City, b: int, r: Route)
    requires b <= MaxValue && BoundsWalks(adj, m, src, dest, b)
    requires b == MaxValue ==> r == NoRoute
    requires b < MaxValue ==> r.weight == b && WalkBetween(adj, r.path, src, dest) && PathWeight(adj, r.path, m) <= b
    ensures IsLightestRoute(adj, m, src, dest, r)
  {
  }

  /** From one state of a search to a later one, recorded weights never
      increase, and a predecessor is set or replaced only where the weight
      strictly decreased. */
  ghost predicate OnlyLowered(best: map<City, int>, prev: map<City, City>, best': map<City, int>, prev': map<City, City>)
  {
    && best'.Keys == best.Keys
    && (forall c :: c in best ==> best'[c] <= best[c])
    && (forall c :: c in prev' && !(c in prev && prev[c] == prev'[c]) ==> c in best && best'[c] < best[c])
  }

  /** A strict decrease at `v` that also sets its predecessor keeps `OnlyLowered`. */
  lemma LowerStep(best: map<City, int>, prev: map<City, City>, best': map<City, int>, prev': map<City, City>,
                  v: City, w: int, u: City)
    requires OnlyLowered(best, prev, best', prev')
    requires v in best' && w < best'[v]
    ensures OnlyLowered(best, prev, best'[v := w], prev'[v := u])
  {
  }

  lemma LoweredTransitive(b0: map<City, int>, p0: map<City, City>, b1: map<City, int>, p1: map<City, City>,
                          b2: map<City, int>, p2: map<City, City>)
    requires OnlyLowered(b0, p0, b1, p1) && OnlyLowered(b1, p1, b2, p2)
    ensures OnlyLowered(b0, p0, b2, p2)
  {
    forall c | c in p2 && !(c in p0 && p0[c] == p2[c]) ensures c in b0 && b2[c] < b0[c] {
      if c in p1 && p1[c] == p2[c] {
        assert c in b0 && b1[c] < b0[c];
      }
    }
  }

  /** `u` is an acceptable predecessor of `v`: a half-edge joins them, the
      recorded weight of `v` pays at least for reaching `u` and that step, and
      the pair (recorded weight, time of last update) of `u` is strictly
      smaller than that of `v`, so following predecessors cannot cycle. */
  ghost predicate Precedes(adj: map<City, seq<Edge>>, m: Metric, best: map<City, int>, time: map<City, nat>, u: City, v: City)
  {
    && u in best && v in best && u in time && v in time
    && Adjacent(adj, u, v)
    && best[u] + StepWeight(adj, u, v, m) <= best[v]
    && (best[u] < best[v] || (best[u] == best[v] && time[u] < time[v]))
  }

  /** The invariant both searches keep over the recorded weights `best` (the
      `distances` or `costs` map), the predecessor map `prev`, and a ghost
      clock that stamps each update. */
  ghost predicate PrevTree(adj: map<City, seq<Edge>>, m: Metric, cities: set<City>, src: City,
                           best: map<City, int>, prev: map<City, City>, time: map<City, nat>, clock: nat)
  {
    && src in cities && best.Keys == cities && time.Keys == cities
    && best[src] == 0
    && (forall v :: v in best ==> 0 <= best[v] <= MaxValue)
    && (forall v :: v in time ==> time[v] < clock)
    && src !in prev
    && (forall v :: v in cities && v != src && best[v] < MaxValue ==> v in prev)
    && (forall v :: v in prev ==> Precedes(adj, m, best, time, prev[v], v))
  }

  /** The state both searches start from: only the source has a finite weight. */
  lemma InitialPrevTree(adj: map<City, seq<Edge>>, m: Metric, cities: set<City>, src: City, best: map<City, int>)
    requires src in cities && best == (map c | c in cities :: MaxValue)[src := 0]
    ensures PrevTree(adj, m, cities, src, best, map[], map c | c in cities :: 0, 1)
  {
  }

  /** Lowering the weight of `v` to `w`, restamping it, and linking it to
      `u` (which is a valid predecessor of `v` in the new state) keeps every
      predecessor link valid. */
  lemma RelaxKeepsLinks(adj: map<City, seq<Edge>>, m: Metric,
                        best: map<City, int>, prev: map<City, City>, time: map<City, nat>, clock: nat,
                        u: City, v: City, w: int, best': map<City, int>, prev': map<City, City>, time': map<City, nat>)
    requires forall x :: x in prev ==> Precedes(adj, m, best, time, prev[x], x)
    requires v in best && w < best[v]
    requires best' == best[v := w] && prev' == prev[v := u] && time' == time[v := clock]
    requires Precedes(adj, m, best', time', u, v)
    ensures forall x :: x in prev' ==> Precedes(adj, m, best', time', prev'[x], x)
  {
    forall x | x in prev' ensures Precedes(adj, m, best', time', prev'[x], x) {
      if x != v {
        assert Precedes(adj, m, best, time, prev[x], x);
      }
    }
  }

  /** A strict relaxation along the half-edge `e`, the `j`-th of `u`, keeps the
      invariant: `e`'s neighbour `v` gets the smaller weight `w`, `u` as
      predecessor and the current clock as time stamp. */
  lemma Relax(adj: map<City, seq<Edge>>, m: Metric, cities: set<City>, src: City,
              best: map<City, int>, prev: map<City, City>, time: map<City, nat>, clock: nat,
              u: City, j: nat, e: Edge, v: City, w: int,
              best': map<City, int>, prev': map<City, City>, time': map<City, nat>)
    requires PrevTree(adj, m, cities, src, best, prev, time, clock)
    requires NonNegative(adj, m)
    requires u in cities && j < |Adj(adj, u)| && e == Adj(adj, u)[j]
    requires v == e.neighborCity && v in cities
    requires w == best[u] + Weight(e, m) && w < best[v]
    requires best' == best[v := w]
    requires prev' == prev[v := u]
    requires time' == time[v := clock]
    ensures PrevTree(adj, m, cities, src, best', prev', time', clock + 1)
  {
    assert Weight(e, m) >= 0;
    assert u != v;
    assert Adjacent(adj, u, v);
    StepWeightIsLightest(adj, u, v, m);
    assert Precedes(adj, m, best', time', u, v);
    RelaxKeepsLinks(adj, m, best, prev, time, clock, u, v, w, best', prev', time');
  }

  /** Putting a predecessor in front of a walk towards `dest` gives a walk
      towards `dest` that still fits within the recorded weight of `dest`. */
  lemma PrependPredecessor(adj: map<City, seq<Edge>>, m: Metric, best: map<City, int>, time: map<City, nat>,
                           u: City, path: seq<City>, dest: City)
    requires path != [] && WalkBetween(adj, path, path[0], dest) && dest in best
    requires Precedes(adj, m, best, time, u, path[0])
    requires best[path[0]] + PathWeight(adj, path, m) <= best[dest]
    ensures WalkBetween(adj, [u] + path, u, dest)
    ensures best[u] + PathWeight(adj, [u] + path, m) <= best[dest]
  {
    var q := [u] + path;
    forall i | 0 <= i < |q| - 1 ensures Adjacent(adj, q[i], q[i + 1]) {
      if i > 0 { assert q[i] == path[i - 1] && q[i + 1] == path[i]; }
    }
    assert q[1..] == path;
  }

  /** Walks `prev` back from `dest`, prepending each city, until the source
      is reached; reports `best[dest]` as the weight. An unknown destination
      throws; a destination at MaxValue gives the empty route. */
  method Reconstruct(ghost adj: map<City, seq<Edge>>, ghost m: Metric, ghost cities: set<City>, src: City, dest: City,
                     best: map<City, int>, prev: map<City, City>, ghost time: map<City, nat>, ghost clock: nat)
    returns (r: Outcome)
    requires PrevTree(adj, m, cities, src, best, prev, time, clock)
    ensures dest !in cities ==> r == NullPointer
    ensures dest in cities && best[dest] == MaxValue ==> r == Ok(NoRoute)
    ensures dest in cities && best[dest] < MaxValue ==>
      && r.Ok? && r.route.weight == best[dest]
      && WalkBetween(adj, r.route.path, src, dest)
      && PathWeight(adj, r.route.path, m) <= best[dest]
    ensures dest == src ==> r == Ok(Route([src], 0))
  {
    if dest !in best {
      return NullPointer;
    }
    if best[dest] == MaxValue {
      return Ok(NoRoute);
    }
    var path: seq<City> := [];
    var step: Option<City> := Some(dest);
    while step.Some?
      invariant step.Some? && step.value in cities && best[step.value] < MaxValue
      invariant path == [] ==> step.value == dest
      invariant dest == src ==> path == []
      invariant path != [] ==>
        && WalkBetween(adj, path, path[0], dest)
        && path[0] in prev && prev[path[0]] == step.value
        && best[path[0]] + PathWeight(adj, path, m) <= best[dest]
      decreases if step.Some? && step.value in best then best[step.value] else 0,
                if step.Some? && step.value in time then time[step.value] else 0
    {
      var city := step.value;
      if path != [] {
        PrependPredecessor(adj, m, best, time, city, path, dest);
      }
      path := [city] + path;
      if city == src {
        break;
      }
      step := Some(prev[city]);
      assert Precedes(adj, m, best, time, prev[city], city);
    }
    // The source rechecks that the path starts at `src`; here that is proved.
    assert path != [] && path[0] == src;
    r := Ok(Route(path, best[dest]));
  }
}
