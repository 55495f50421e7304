/** Minimum-cost route: Bellman-Ford relaxation, |V| - 1 rounds over every
    half-edge of every city, followed by the shared route reconstruction. */
module BellmanFord {
  import opened TravelGraph
  import opened Walks
  import opened Routes

  /** The graph facts the search relies on and never changes. */
  ghost predicate WellFormed(adj: map<City, seq<Edge>>, cities: set<City>)
  {
    NonNegative(adj, Cost) && NeighborsListed(adj) && adj.Keys <= cities
  }

  /** After `r` complete rounds, plus the cities of the current round in
      `processed`: every walk from `src` with at most `r` steps, or with
      `r + 1` steps whose last step leaves a processed city, costs at least
      what is recorded for its last city. */
  ghost predicate CoversWalks(adj: map<City, seq<Edge>>, src: City, costs: map<City, int>, r: nat, processed: set<City>)
  {
    forall p {:trigger CostBounded(adj, costs, p)} ::
      IsWalk(adj, p) && p[0] == src && (|p| <= r + 1 || (|p| == r + 2 && p[|p| - 2] in processed)) ==>
        CostBounded(adj, costs, p)
  }

  /** The walk `p` costs at least what is recorded for its last city. */
  ghost predicate CostBounded(adj: map<City, seq<Edge>>, costs: map<City, int>, p: seq<City>)
  {
    IsWalk(adj, p) && p[|p| - 1] in costs && costs[p[|p| - 1]] <= PathWeight(adj, p, Cost)
  }

  /** Every half-edge of `x` has been relaxed from the cost `cx` of `x`
      (a city still at the sentinel relaxes nothing). */
  ghost predicate RelaxedFrom(adj: map<City, seq<Edge>>, x: City, cx: int, j: int, costs: map<City, int>)
  {
    forall k :: 0 <= k < j && k < |Adj(adj, x)| && cx < MaxValue ==>
      Adj(adj, x)[k].neighborCity in costs && costs[Adj(adj, x)[k].neighborCity] <= cx + Adj(adj, x)[k].cost
  }

  /** Before the first round only the source is covered, at cost 0. */
  lemma InitialCover(adj: map<City, seq<Edge>>, src: City, costs: map<City, int>)
    requires src in costs && costs[src] == 0
    ensures CoversWalks(adj, src, costs, 0, {})
  {
    forall p | IsWalk(adj, p) && p[0] == src && |p| <= 1
      ensures CostBounded(adj, costs, p)
    {
    }
  }

  /** Lowering one recorded cost keeps every bound. */
  lemma LowerKeepsCover(adj: map<City, seq<Edge>>, src: City, costs: map<City, int>, r: nat, processed: set<City>,
                        v: City, nc: int, costs': map<City, int>)
    requires CoversWalks(adj, src, costs, r, processed)
    requires v in costs && nc < costs[v] && costs' == costs[v := nc]
    ensures CoversWalks(adj, src, costs', r, processed)
  {
    forall p | IsWalk(adj, p) && p[0] == src && (|p| <= r + 1 || (|p| == r + 2 && p[|p| - 2] in processed))
      ensures CostBounded(adj, costs', p)
    {
      assert CostBounded(adj, costs, p);
    }
  }

  /** A walk that ends with a step out of `x`, where every half-edge of `x`
      has been relaxed, is bounded once its prefix up to `x` is. */
  lemma ExtendCover(adj: map<City, seq<Edge>>, cities: set<City>, src: City, costs: map<City, int>,
                    r: nat, processed: set<City>, x: City, p: seq<City>)
    requires WellFormed(adj, cities) && costs.Keys == cities
    requires forall c :: c in costs ==> costs[c] <= MaxValue
    requires CoversWalks(adj, src, costs, r, processed)
    requires x in costs && RelaxedFrom(adj, x, costs[x], |Adj(adj, x)|, costs)
    requires IsWalk(adj, p) && p[0] == src && |p| == r + 2 && p[|p| - 2] == x
    ensures CostBounded(adj, costs, p)
  {
    var q, v := p[..|p| - 1], p[|p| - 1];
    SubWalk(adj, p, 0, |p| - 1);
    assert p[0..|p| - 1] == q;
    assert q[0] == src && q[|q| - 1] == x && |q| == r + 1;
    assert CostBounded(adj, costs, q);
    assert Adjacent(adj, x, v);
    Extend(adj, q, v, Cost);
    assert q + [v] == p;
    StepWeightIsLightest(adj, x, v, Cost);
    var k :| 0 <= k < |Adj(adj, x)| && Adj(adj, x)[k].neighborCity == v
             && StepWeight(adj, x, v, Cost) == Weight(Adj(adj, x)[k], Cost);
    assert v in cities;
    if costs[x] == MaxValue {
      assert Weight(Adj(adj, x)[k], Cost) >= 0;
    }
  }

  /** Once every half-edge of `x` is relaxed, `x` counts as processed. */
  lemma CoverCity(adj: map<City, seq<Edge>>, cities: set<City>, src: City, costs: map<City, int>,
                  r: nat, processed: set<City>, x: City)
    requires WellFormed(adj, cities) && costs.Keys == cities
    requires forall c :: c in costs ==> costs[c] <= MaxValue
    requires CoversWalks(adj, src, costs, r, processed)
    requires x in costs && RelaxedFrom(adj, x, costs[x], |Adj(adj, x)|, costs)
    ensures CoversWalks(adj, src, costs, r, processed + {x})
  {
    forall p | IsWalk(adj, p) && p[0] == src && (|p| <= r + 1 || (|p| == r + 2 && p[|p| - 2] in processed + {x}))
      ensures CostBounded(adj, costs, p)
    {
      if |p| == r + 2 && p[|p| - 2] == x {
        ExtendCover(adj, cities, src, costs, r, processed, x, p);
      } else {
        assert CostBounded(adj, costs, p);
      }
    }
  }

  /** A round that processed every city covers one more step. */
  lemma {:induction false} NextRound(adj: map<City, seq<Edge>>, cities: set<City>, src: City, costs: map<City, int>, r: nat)
    requires NeighborsListed(adj) && adj.Keys <= cities && src in cities
    requires CoversWalks(adj, src, costs, r, cities)
    ensures CoversWalks(adj, src, costs, r + 1, {})
  {
    forall p | IsWalk(adj, p) && p[0] == src && |p| <= r + 2
      ensures CostBounded(adj, costs, p)
    {
      WalkStaysListed(adj, p, cities);
      if |p| > 1 {
        assert p[|p| - 2] in cities;
      }
      assert CostBounded(adj, costs, p);
    }
  }

  /** After |cities| - 1 rounds the recorded cost of `dest` bounds every walk
      from `src` to it: a cheaper walk could be cut down to at most
      |cities| - 1 steps. */
  lemma CoversAll(adj: map<City, seq<Edge>>, cities: set<City>, src: City, dest: City, costs: map<City, int>)
    requires WellFormed(adj, cities) && src in cities && dest in costs && |cities| >= 1
    requires CoversWalks(adj, src, costs, |cities| - 1, {})
    ensures BoundsWalks(adj, Cost, src, dest, costs[dest])
  {
    forall p | WalkBetween(adj, p, src, dest) ensures costs[dest] <= PathWeight(adj, p, Cost) {
      WalkStaysListed(adj, p, cities);
      Shortcut(adj, p, cities, Cost);
      var q :| WalkBetween(adj, q, p[0], p[|p| - 1]) && |q| <= |cities| && PathWeight(adj, q, Cost) <= PathWeight(adj, p, Cost);
      assert CostBounded(adj, costs, q);
    }
  }

  /** The edge loop's invariant for city `x`, whose cost `cx` stays fixed
      while its first `j` half-edges are relaxed. */
  ghost predicate Relaxing(adj: map<City, seq<Edge>>, cities: set<City>, src: City, x: City, cx: int,
                           r: nat, processed: set<City>, j: int,
                           costs: map<City, int>, prev: map<City, City>, time: map<City, nat>, clock: nat)
  {
    && PrevTree(adj, Cost, cities, src, costs, prev, time, clock)
    && x in costs && costs[x] == cx
    && RelaxedFrom(adj, x, cx, j, costs)
    && CoversWalks(adj, src, costs, r, processed)
  }

  /** Lowering the cost of the target of the `j`-th half-edge of `x` to at
      most `cx` plus its cost relaxes that half-edge too. */
  lemma LowerKeepsRelaxed(adj: map<City, seq<Edge>>, x: City, cx: int, j: nat, costs: map<City, int>,
                          v: City, nc: int, costs': map<City, int>)
    requires RelaxedFrom(adj, x, cx, j, costs)
    requires j < |Adj(adj, x)| && v == Adj(adj, x)[j].neighborCity && v in costs
    requires nc < costs[v] && nc <= cx + Adj(adj, x)[j].cost && costs' == costs[v := nc]
    ensures RelaxedFrom(adj, x, cx, j + 1, costs')
  {
  }

  /** A strict improvement through the `j`-th half-edge `e` of `x` keeps the
      edge loop's invariant. */
  lemma RelaxStep(adj: map<City, seq<Edge>>, cities: set<City>, src: City, x: City, cx: int, r: nat, processed: set<City>,
                  costs: map<City, int>, prev: map<City, City>, time: map<City, nat>, clock: nat,
                  j: nat, e: Edge, v: City, nc: int,
                  costs': map<City, int>, prev': map<City, City>, time': map<City, nat>)
    requires WellFormed(adj, cities) && x in cities
    requires Relaxing(adj, cities, src, x, cx, r, processed, j, costs, prev, time, clock)
    requires j < |Adj(adj, x)| && e == Adj(adj, x)[j] && v == e.neighborCity && v in cities
    requires cx < MaxValue && nc == cx + e.cost && nc < costs[v]
    requires costs' == costs[v := nc] && prev' == prev[v := x] && time' == time[v := clock]
    ensures Relaxing(adj, cities, src, x, cx, r, processed, j + 1, costs', prev', time', clock + 1)
  {
    assert Weight(e, Cost) == e.cost >= 0;
    Relax(adj, Cost, cities, src, costs, prev, time, clock, x, j, e, v, nc, costs', prev', time');
    LowerKeepsCover(adj, src, costs, r, processed, v, nc, costs');
    LowerKeepsRelaxed(adj, x, cx, j, costs, v, nc, costs');
  }

  /** A half-edge that offers no improvement, or leaves a city still at the
      sentinel, is relaxed as it stands. */
  lemma SkipStep(adj: map<City, seq<Edge>>, cities: set<City>, src: City, x: City, cx: int, r: nat, processed: set<City>,
                 costs: map<City, int>, prev: map<City, City>, time: map<City, nat>, clock: nat, j: nat)
    requires Relaxing(adj, cities, src, x, cx, r, processed, j, costs, prev, time, clock)
    requires j < |Adj(adj, x)| && Adj(adj, x)[j].neighborCity in costs
    requires cx == MaxValue || cx + Adj(adj, x)[j].cost >= costs[Adj(adj, x)[j].neighborCity]
    ensures Relaxing(adj, cities, src, x, cx, r, processed, j + 1, costs, prev, time, clock)
  {
  }

  /** The edge loop of one city in one round: each half-edge whose target's
      recorded cost exceeds the city's cost plus the edge's cost lowers it and
      records the city as predecessor; a city still at the sentinel, or
      without an adjacency list, changes nothing. */
  method RelaxCity(adj: map<City, seq<Edge>>, ghost cities: set<City>, ghost src: City, city: City,
                   costs: map<City, int>, prev: map<City, City>, ghost time: map<City, nat>, ghost clock: nat,
                   ghost r: nat, ghost processed: set<City>)
    returns (costs': map<City, int>, prev': map<City, City>, ghost time': map<City, nat>, ghost clock': nat)
    requires WellFormed(adj, cities) && city in cities
    requires PrevTree(adj, Cost, cities, src, costs, prev, time, clock)
    requires CoversWalks(adj, src, costs, r, processed)
    ensures PrevTree(adj, Cost, cities, src, costs', prev', time', clock')
    ensures CoversWalks(adj, src, costs', r, processed + {city})
    ensures OnlyLowered(costs, prev, costs', prev')
    ensures city !in adj || costs[city] == MaxValue ==> costs' == costs && prev' == prev
  {
    costs', prev', time', clock' := costs, prev, time, clock;
    if city !in adj {
      CoverCity(adj, cities, src, costs', r, processed, city);
      return;
    }
    var edges := adj[city];
    ghost var cx := costs[city];
    for j := 0 to |edges|
      invariant Relaxing(adj, cities, src, city, cx, r, processed, j, costs', prev', time', clock')
      invariant OnlyLowered(costs, prev, costs', prev')
      invariant cx == MaxValue ==> costs' == costs && prev' == prev
    {
      var edge := edges[j];
      assert edge == Adj(adj, city)[j] && edge.neighborCity in cities;
      if costs'[city] != MaxValue && costs'[city] + edge.cost < costs'[edge.neighborCity] {
        var newCost := costs'[city] + edge.cost;
        var v := edge.neighborCity;
        RelaxStep(adj, cities, src, city, cx, r, processed, costs', prev', time', clock', j, edge, v, newCost,
                  costs'[v := newCost], prev'[v := city], time'[v := clock']);
        LowerStep(costs, prev, costs', prev', v, newCost, city);
        costs' := costs'[v := newCost];
        prev' := prev'[v := city];
        time', clock' := time'[v := clock'], clock' + 1;
      } else {
        SkipStep(adj, cities, src, city, cx, r, processed, costs', prev', time', clock', j);
      }
    }
    CoverCity(adj, cities, src, costs', r, processed, city);
  }

  /** Moving one city from the cities still to do to those processed. */
  lemma TakeOne(cities: set<City>, todo: set<City>, city: City)
    requires todo <= cities && city in todo
    ensures (cities - todo) + {city} == cities - (todo - {city})
    ensures |todo - {city}| < |todo|
  {
  }

  /** One round: every city of `cities`, in an unspecified order (Java's
      HashSet iteration order), relaxes its half-edges. */
  method RelaxRound(adj: map<City, seq<Edge>>, cities: set<City>, ghost src: City,
                    costs: map<City, int>, prev: map<City, City>, ghost time: map<City, nat>, ghost clock: nat,
                    ghost r: nat)
    returns (costs': map<City, int>, prev': map<City, City>, ghost time': map<City, nat>, ghost clock': nat)
    requires WellFormed(adj, cities)
    requires PrevTree(adj, Cost, cities, src, costs, prev, time, clock)
    requires CoversWalks(adj, src, costs, r, {})
    ensures PrevTree(adj, Cost, cities, src, costs', prev', time', clock')
    ensures CoversWalks(adj, src, costs', r + 1, {})
    ensures OnlyLowered(costs, prev, costs', prev')
  {
    costs', prev', time', clock' := costs, prev, time, clock;
    var todo := cities;
    while todo != {}
      invariant todo <= cities
      invariant PrevTree(adj, Cost, cities, src, costs', prev', time', clock')
      invariant CoversWalks(adj, src, costs', r, cities - todo)
      invariant OnlyLowered(costs, prev, costs', prev')
      decreases |todo|
    {
      var city :| city in todo;
      ghost var before, prevBefore := costs', prev';
      costs', prev', time', clock' := RelaxCity(adj, cities, src, city, costs', prev', time', clock', r, cities - todo);
      LoweredTransitive(costs, prev, before, prevBefore, costs', prev');
      TakeOne(cities, todo, city);
      todo := todo - {city};
    }
    NextRound(adj, cities, src, costs', r);
  }

  /** Java's BellmanFord.shortestPathByCost: the cheapest route by cost from
      `src` to `dest`. An unknown source gives the empty route with the
      sentinel cost; a known source with an unknown destination throws;
      otherwise the result is a cheapest route, which for `src == dest` is
      `[src]` at cost 0. */
  method ShortestPathByCost(graph: Graph, src: City, dest: City) returns (r: Outcome)
    requires graph.Valid() && NonNegative(graph.adjList, Cost)
    ensures src !in graph.CityNames() ==> r == Ok(NoRoute)
    ensures src in graph.CityNames() && dest !in graph.CityNames() ==> r == NullPointer
    ensures src in graph.CityNames() && dest in graph.CityNames() ==>
              r.Ok? && IsLightestRoute(graph.adjList, Cost, src, dest, r.route)
    ensures src in graph.CityNames() && dest == src ==> r == Ok(Route([src], 0))
  {
    var adj := graph.AdjList();
    var cities := graph.CityNames();
    var numVertices := |cities|;
    SymmetricNeighborsListed(adj);
    var costs := map c | c in cities :: MaxValue;
    var prev: map<City, City> := map[];
    if src !in costs {
      return Ok(NoRoute);
    }
    costs := costs[src := 0];
    ghost var time: map<City, nat> := map c | c in cities :: 0;
    ghost var clock: nat := 1;
    InitialPrevTree(adj, Cost, cities, src, costs);
    InitialCover(adj, src, costs);
    for i := 1 to numVertices
      invariant PrevTree(adj, Cost, cities, src, costs, prev, time, clock)
      invariant CoversWalks(adj, src, costs, i - 1, {})
    {
      costs, prev, time, clock := RelaxRound(adj, cities, src, costs, prev, time, clock, i - 1);
    }
    if dest in cities {
      CoversAll(adj, cities, src, dest, costs);
    }
    r := Reconstruct(adj, Cost, cities, src, dest, costs, prev, time, clock);
    if dest in cities {
      ReconstructedIsLightest(adj, Cost, src, dest, costs[dest], r.route);
    }
  }
}
