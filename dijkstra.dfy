/** Minimum-distance route: Dijkstra's algorithm over a priority queue of
    (city, distance) entries, skipping stale entries and stopping as soon as
    the destination is taken from the queue. */
module Dijkstra {
  import opened TravelGraph
  import opened Walks
  import opened Routes

  /** A queue entry; entries are ordered by `distance` alone. */
  datatype Node = Node(city: City, distance: int)

  /** Entry `i` has the least distance in the queue, so polling may return it. */
  predicate IsMinimal(pq: seq<Node>, i: int)
  {
    0 <= i < |pq| && forall k :: 0 <= k < |pq| ==> pq[i].distance <= pq[k].distance
  }

  lemma {:induction false} MinimumExists(pq: seq<Node>)
    requires pq != []
    ensures exists i :: IsMinimal(pq, i)
  {
    if |pq| > 1 {
      MinimumExists(pq[1..]);
      var i :| IsMinimal(pq[1..], i);
      if pq[0].distance <= pq[1..][i].distance {
        assert IsMinimal(pq, 0);
      } else {
        assert IsMinimal(pq, i + 1);
      }
    } else {
      assert IsMinimal(pq, 0);
    }
  }

  /** The queue after polling entry `i`. */
  function RemoveAt(pq: seq<Node>, i: nat): (r: seq<Node>)
    requires i < |pq|
    ensures |r| == |pq| - 1
    ensures forall k :: 0 <= k < |r| ==> r[k] == pq[if k < i then k else k + 1]
    ensures forall x :: x in pq && x != pq[i] ==> x in r
  {
    pq[..i] + pq[i + 1..]
  }

  ghost predicate QueueHasAtMost(pq: seq<Node>, bound: int)
  {
    exists k :: 0 <= k < |pq| && pq[k].distance <= bound
  }

  /** Every entry names a known city, is no smaller than that city's recorded
      distance, and is finite. */
  ghost predicate QueueSound(pq: seq<Node>, dist: map<City, int>)
  {
    forall k :: 0 <= k < |pq| ==> pq[k].city in dist && dist[pq[k].city] <= pq[k].distance < MaxValue
  }

  /** Cities already expanded ("settled") are no farther than any queued entry. */
  ghost predicate SettledFirst(settled: set<City>, dist: map<City, int>, pq: seq<Node>)
  {
    forall s, k :: s in settled && 0 <= k < |pq| ==> s in dist && dist[s] <= pq[k].distance
  }

  /** Every half-edge out of a settled city has been relaxed. */
  ghost predicate SettledClosed(adj: map<City, seq<Edge>>, settled: set<City>, dist: map<City, int>)
  {
    forall s, j :: s in settled && 0 <= j < |Adj(adj, s)| ==>
      && s in dist && Adj(adj, s)[j].neighborCity in dist
      && dist[Adj(adj, s)[j].neighborCity] <= dist[s] + Adj(adj, s)[j].distance
  }

  /** Every city with a finite distance that is not settled waits in the queue
      under exactly that distance. */
  ghost predicate Frontier(cities: set<City>, settled: set<City>, dist: map<City, int>, pq: seq<Node>)
  {
    forall v :: v in cities && v !in settled && v in dist && dist[v] < MaxValue ==> Node(v, dist[v]) in pq
  }

  /** The main loop's invariant. */
  ghost predicate Searching(adj: map<City, seq<Edge>>, cities: set<City>, src: City, dest: City,
                            dist: map<City, int>, prev: map<City, City>, time: map<City, nat>, clock: nat,
                            pq: seq<Node>, settled: set<City>)
  {
    && PrevTree(adj, Distance, cities, src, dist, prev, time, clock)
    && QueueSound(pq, dist)
    && settled <= cities
    && SettledFirst(settled, dist, pq)
    && SettledClosed(adj, settled, dist)
    && Frontier(cities, settled, dist, pq)
    && dest !in settled
  }

  /** The graph facts the search relies on and never changes. */
  ghost predicate WellFormed(adj: map<City, seq<Edge>>, cities: set<City>)
  {
    NonNegative(adj, Distance) && NeighborsListed(adj) && adj.Keys <= cities
  }

  /** One step of a walk from `x` to `y` weighing `w`: if `x` is settled within
      `d` or some entry is queued within `d`, then `y` is settled within `d + w`
      or some entry is queued within `d + w`. */
  lemma FrontierStep(adj: map<City, seq<Edge>>, cities: set<City>, dist: map<City, int>,
                     settled: set<City>, pq: seq<Node>, x: City, y: City, d: int)
    requires WellFormed(adj, cities) && dist.Keys == cities
    requires Adjacent(adj, x, y) && x in cities
    requires SettledClosed(adj, settled, dist) && Frontier(cities, settled, dist, pq)
    requires d + StepWeight(adj, x, y, Distance) < MaxValue
    requires (x in settled && dist[x] <= d) || QueueHasAtMost(pq, d)
    ensures y in cities
    ensures || (y in settled && dist[y] <= d + StepWeight(adj, x, y, Distance))
            || QueueHasAtMost(pq, d + StepWeight(adj, x, y, Distance))
  {
    var w := StepWeight(adj, x, y, Distance);
    StepWeightIsLightest(adj, x, y, Distance);
    var j :| 0 <= j < |Adj(adj, x)| && Adj(adj, x)[j].neighborCity == y && w == Weight(Adj(adj, x)[j], Distance);
    assert y in cities;
    if x in settled && dist[x] <= d {
      assert dist[y] <= d + w;
      if y !in settled {
        assert Node(y, dist[y]) in pq;
        var k :| 0 <= k < |pq| && pq[k] == Node(y, dist[y]);
        assert QueueHasAtMost(pq, d + w);
      }
    } else {
      var k :| 0 <= k < |pq| && pq[k].distance <= d;
      assert w >= 0;
      assert QueueHasAtMost(pq, d + w);
    }
  }

  /** Along a walk, the first city that is not settled is queued no farther than
      the walk's length up to it: so either the walk ends in a settled city, or
      some entry is queued under at most the walk's length (offset by `d`). */
  lemma {:induction false} ReachFrontier(adj: map<City, seq<Edge>>, cities: set<City>, dist: map<City, int>,
                                         settled: set<City>, pq: seq<Node>, p: seq<City>, d: int)
    requires WellFormed(adj, cities) && dist.Keys == cities
    requires IsWalk(adj, p) && p[0] in cities
    requires SettledClosed(adj, settled, dist) && Frontier(cities, settled, dist, pq)
    requires d + PathWeight(adj, p, Distance) < MaxValue
    requires (p[0] in settled && dist[p[0]] <= d) || QueueHasAtMost(pq, d)
    ensures || (p[|p| - 1] in settled && p[|p| - 1] in dist && dist[p[|p| - 1]] <= d + PathWeight(adj, p, Distance))
            || QueueHasAtMost(pq, d + PathWeight(adj, p, Distance))
    decreases |p|
  {
    if |p| > 1 {
      var rest := p[1..];
      assert IsWalk(adj, rest) && rest[0] == p[1] && rest[|rest| - 1] == p[|p| - 1];
      var w := StepWeight(adj, p[0], p[1], Distance);
      assert PathWeight(adj, p, Distance) == w + PathWeight(adj, rest, Distance);
      PathWeightNonNegative(adj, rest, Distance);
      FrontierStep(adj, cities, dist, settled, pq, p[0], p[1], d);
      ReachFrontier(adj, cities, dist, settled, pq, rest, d + w);
    }
  }

  /** While the destination is unsettled, any walk to it that is lighter than
      the sentinel has an entry queued under at most its length. */
  lemma QueueBoundsWalks(adj: map<City, seq<Edge>>, cities: set<City>, src: City, dest: City,
                         dist: map<City, int>, pq: seq<Node>, settled: set<City>)
    requires WellFormed(adj, cities) && dist.Keys == cities
    requires src in cities && dist[src] == 0 && dest !in settled
    requires SettledClosed(adj, settled, dist) && Frontier(cities, settled, dist, pq)
    ensures forall p :: WalkBetween(adj, p, src, dest) && PathWeight(adj, p, Distance) < MaxValue ==>
              QueueHasAtMost(pq, PathWeight(adj, p, Distance))
  {
    forall p | WalkBetween(adj, p, src, dest) && PathWeight(adj, p, Distance) < MaxValue
      ensures QueueHasAtMost(pq, PathWeight(adj, p, Distance))
    {
      if src !in settled {
        assert Node(src, 0) in pq;
        var k :| 0 <= k < |pq| && pq[k] == Node(src, 0);
        assert QueueHasAtMost(pq, 0);
      }
      ReachFrontier(adj, cities, dist, settled, pq, p, 0);
    }
  }

  /** Polling a stale entry changes nothing else and keeps the invariant. */
  lemma DropStale(adj: map<City, seq<Edge>>, cities: set<City>, src: City, dest: City,
                  dist: map<City, int>, prev: map<City, City>, time: map<City, nat>, clock: nat,
                  pq: seq<Node>, settled: set<City>, i: nat)
    requires Searching(adj, cities, src, dest, dist, prev, time, clock, pq, settled)
    requires i < |pq| && pq[i].distance > dist[pq[i].city]
    ensures Searching(adj, cities, src, dest, dist, prev, time, clock, RemoveAt(pq, i), settled)
  {
    var rest := RemoveAt(pq, i);
    forall v | v in cities && v !in settled && v in dist && dist[v] < MaxValue ensures Node(v, dist[v]) in rest {
      assert Node(v, dist[v]) in pq;
    }
  }

  /** Settling a city whose entry was minimal and that has no half-edges keeps the invariant. */
  lemma SettleIsolated(adj: map<City, seq<Edge>>, cities: set<City>, src: City, dest: City,
                       dist: map<City, int>, prev: map<City, City>, time: map<City, nat>, clock: nat,
                       pq: seq<Node>, settled: set<City>, i: nat)
    requires Searching(adj, cities, src, dest, dist, prev, time, clock, pq, settled)
    requires IsMinimal(pq, i) && pq[i].distance == dist[pq[i].city]
    requires pq[i].city != dest && pq[i].city !in adj
    ensures Searching(adj, cities, src, dest, dist, prev, time, clock, RemoveAt(pq, i), settled + {pq[i].city})
  {
    var rest := RemoveAt(pq, i);
    var u := pq[i].city;
    assert Adj(adj, u) == [];
    forall v | v in cities && v !in settled + {u} && v in dist && dist[v] < MaxValue ensures Node(v, dist[v]) in rest {
      assert Node(v, dist[v]) in pq;
    }
  }

  /** The inner loop's invariant while the half-edges of `u` (polled with
      distance `du`) are relaxed: `u` already counts as settled for the
      ordering and frontier facts, but only the cities settled before it are
      closed. */
  ghost predicate Expanding(adj: map<City, seq<Edge>>, cities: set<City>, src: City, u: City, du: int,
                            settled: set<City>, dist: map<City, int>, prev: map<City, City>,
                            time: map<City, nat>, clock: nat, pq: seq<Node>)
  {
    PrevTree(adj, Distance, cities, src, dist, prev, time, clock) && Pending(adj, cities, u, du, settled, dist, pq)
  }

  /** The part of the inner loop's invariant that concerns the queue and the
      settled cities. */
  ghost predicate Pending(adj: map<City, seq<Edge>>, cities: set<City>, u: City, du: int,
                          settled: set<City>, dist: map<City, int>, pq: seq<Node>)
  {
    && u in dist && dist[u] == du
    && QueueSound(pq, dist)
    && (forall k :: 0 <= k < |pq| ==> du <= pq[k].distance)
    && (forall s :: s in settled + {u} ==> s in dist && dist[s] <= du)
    && settled <= cities
    && SettledClosed(adj, settled, dist)
    && Frontier(cities, settled + {u}, dist, pq)
  }

  /** The first `j` half-edges of `u` have been relaxed. */
  ghost predicate RelaxedUpTo(adj: map<City, seq<Edge>>, u: City, du: int, j: int, dist: map<City, int>)
  {
    forall k :: 0 <= k < j && k < |Adj(adj, u)| ==>
      Adj(adj, u)[k].neighborCity in dist && dist[Adj(adj, u)[k].neighborCity] <= du + Adj(adj, u)[k].distance
  }

  /** Lowering the distance of `v` and queueing it under the new distance keeps
      the queue sound. */
  lemma LowerKeepsQueueSound(pq: seq<Node>, dist: map<City, int>, v: City, nd: int, dist': map<City, int>, pq': seq<Node>)
    requires QueueSound(pq, dist) && v in dist && nd < dist[v] <= MaxValue
    requires dist' == dist[v := nd] && pq' == pq + [Node(v, nd)]
    ensures QueueSound(pq', dist')
  {
  }

  /** Lowering the distance of a city that is not settled keeps the settled cities closed. */
  lemma LowerKeepsClosed(adj: map<City, seq<Edge>>, settled: set<City>, dist: map<City, int>, v: City, nd: int, dist': map<City, int>)
    requires SettledClosed(adj, settled, dist) && settled <= dist.Keys
    requires v !in settled && v in dist && nd < dist[v] && dist' == dist[v := nd]
    ensures SettledClosed(adj, settled, dist')
  {
    forall s, j | s in settled && 0 <= j < |Adj(adj, s)|
      ensures && s in dist' && Adj(adj, s)[j].neighborCity in dist'
              && dist'[Adj(adj, s)[j].neighborCity] <= dist'[s] + Adj(adj, s)[j].distance
    {
      var x := Adj(adj, s)[j].neighborCity;
      assert s in dist && x in dist && dist[x] <= dist[s] + Adj(adj, s)[j].distance;
      assert s != v;
    }
  }

  /** Lowering the distance of a city that is not settled, and queueing it under
      the new distance, keeps the frontier queued. */
  lemma LowerKeepsFrontier(cities: set<City>, settled: set<City>, dist: map<City, int>, pq: seq<Node>,
                           v: City, nd: int, dist': map<City, int>, pq': seq<Node>)
    requires Frontier(cities, settled, dist, pq) && v !in settled
    requires dist' == dist[v := nd] && pq' == pq + [Node(v, nd)]
    ensures Frontier(cities, settled, dist', pq')
  {
    forall x | x in cities && x !in settled && x in dist' && dist'[x] < MaxValue
      ensures Node(x, dist'[x]) in pq'
    {
      if x != v {
        assert Node(x, dist[x]) in pq;
      } else {
        assert pq'[|pq|] == Node(x, dist'[x]);
      }
    }
  }

  /** A strict improvement through the `j`-th half-edge `e` of `u` keeps the
      queue part of the inner loop's invariant; it can only happen while `u`
      was not settled before. */
  lemma PendingStep(adj: map<City, seq<Edge>>, cities: set<City>, u: City, du: int,
                    settled: set<City>, dist: map<City, int>, pq: seq<Node>, j: nat, e: Edge, v: City, nd: int,
                    dist': map<City, int>, pq': seq<Node>)
    requires NonNegative(adj, Distance) && settled <= dist.Keys
    requires Pending(adj, cities, u, du, settled, dist, pq)
    requires RelaxedUpTo(adj, u, du, j, dist)
    requires j < |Adj(adj, u)| && e == Adj(adj, u)[j] && v == e.neighborCity && v in dist
    requires nd == du + e.distance && nd < dist[v] <= MaxValue
    requires dist' == dist[v := nd] && pq' == pq + [Node(v, nd)]
    ensures Pending(adj, cities, u, du, settled, dist', pq')
    ensures RelaxedUpTo(adj, u, du, j + 1, dist')
    ensures u !in settled
  {
    assert e.distance >= 0;
    assert v !in settled + {u};
    LowerKeepsQueueSound(pq, dist, v, nd, dist', pq');
    LowerKeepsClosed(adj, settled, dist, v, nd, dist');
    LowerKeepsFrontier(cities, settled + {u}, dist, pq, v, nd, dist', pq');
  }

  /** A strict improvement through the `j`-th half-edge `e` of `u` keeps the
      inner loop's invariant; it can only happen while `u` was not settled before. */
  lemma RelaxStep(adj: map<City, seq<Edge>>, cities: set<City>, src: City, u: City, du: int,
                  settled: set<City>, dist: map<City, int>, prev: map<City, City>,
                  time: map<City, nat>, clock: nat, pq: seq<Node>, j: nat, e: Edge, v: City, nd: int,
                  dist': map<City, int>, prev': map<City, City>, time': map<City, nat>, pq': seq<Node>)
    requires WellFormed(adj, cities)
    requires Expanding(adj, cities, src, u, du, settled, dist, prev, time, clock, pq)
    requires RelaxedUpTo(adj, u, du, j, dist)
    requires j < |Adj(adj, u)| && e == Adj(adj, u)[j] && v == e.neighborCity && v in cities
    requires nd == du + e.distance && nd < dist[v]
    requires dist' == dist[v := nd] && prev' == prev[v := u] && time' == time[v := clock]
    requires pq' == pq + [Node(v, nd)]
    ensures Expanding(adj, cities, src, u, du, settled, dist', prev', time', clock + 1, pq')
    ensures RelaxedUpTo(adj, u, du, j + 1, dist')
    ensures u !in settled
  {
    assert u in cities && Weight(e, Distance) == e.distance;
    Relax(adj, Distance, cities, src, dist, prev, time, clock, u, j, e, v, nd, dist', prev', time');
    PendingStep(adj, cities, u, du, settled, dist, pq, j, e, v, nd, dist', pq');
  }

  /** After every half-edge of `u` is relaxed, `u` joins the settled cities. */
  lemma FinishExpansion(adj: map<City, seq<Edge>>, cities: set<City>, src: City, dest: City, u: City, du: int,
                        settled: set<City>, dist: map<City, int>, prev: map<City, City>,
                        time: map<City, nat>, clock: nat, pq: seq<Node>)
    requires Expanding(adj, cities, src, u, du, settled, dist, prev, time, clock, pq)
    requires RelaxedUpTo(adj, u, du, |Adj(adj, u)|, dist)
    requires u in cities && u != dest && dest !in settled
    ensures Searching(adj, cities, src, dest, dist, prev, time, clock, pq, settled + {u})
  {
  }

  /** Relaxes the `j`-th half-edge out of `u` (polled with distance `du`):
      when `du` plus the edge's distance is strictly below the recorded
      distance of the neighbour, the neighbour gets that distance, `u` as
      predecessor, and a new queue entry; otherwise nothing changes. */
  method RelaxEdge(ghost adj: map<City, seq<Edge>>, ghost cities: set<City>, ghost src: City,
                   u: City, du: int, ghost j: nat, edge: Edge,
                   dist: map<City, int>, prev: map<City, City>, ghost time: map<City, nat>, ghost clock: nat,
                   pq: seq<Node>, ghost settled: set<City>)
    returns (dist': map<City, int>, prev': map<City, City>, ghost time': map<City, nat>, ghost clock': nat, pq': seq<Node>)
    requires WellFormed(adj, cities)
    requires Expanding(adj, cities, src, u, du, settled, dist, prev, time, clock, pq)
    requires RelaxedUpTo(adj, u, du, j, dist)
    requires j < |Adj(adj, u)| && edge == Adj(adj, u)[j]
    ensures Expanding(adj, cities, src, u, du, settled, dist', prev', time', clock', pq')
    ensures RelaxedUpTo(adj, u, du, j + 1, dist')
    ensures OnlyLowered(dist, prev, dist', prev')
    ensures u in settled ==> pq' == pq
  {
    dist', prev', time', clock', pq' := dist, prev, time, clock, pq;
    assert edge.neighborCity in cities;
    var newDist := dist[u] + edge.distance;
    if newDist < dist[edge.neighborCity] {
      var v := edge.neighborCity;
      RelaxStep(adj, cities, src, u, du, settled, dist, prev, time, clock, pq, j, edge, v, newDist,
                dist[v := newDist], prev[v := u], time[v := clock], pq + [Node(v, newDist)]);
      LowerStep(dist, prev, dist, prev, v, newDist, u);
      dist' := dist[v := newDist];
      prev' := prev[v := u];
      time', clock' := time[v := clock], clock + 1;
      pq' := pq + [Node(v, newDist)];
    }
  }

  /** Relaxes every half-edge out of `u`, whose entry (with distance `du`) has
      just been polled as a minimal one. Afterwards `u` counts as settled. */
  method RelaxNeighbors(ghost adj: map<City, seq<Edge>>, ghost cities: set<City>, ghost src: City, ghost dest: City,
                        u: City, du: int, edges: seq<Edge>,
                        dist: map<City, int>, prev: map<City, City>, ghost time: map<City, nat>, ghost clock: nat,
                        pq: seq<Node>, ghost settled: set<City>)
    returns (dist': map<City, int>, prev': map<City, City>, ghost time': map<City, nat>, ghost clock': nat, pq': seq<Node>)
    requires WellFormed(adj, cities)
    requires u in adj && edges == adj[u] && u != dest && dest !in settled
    requires Expanding(adj, cities, src, u, du, settled, dist, prev, time, clock, pq)
    ensures Searching(adj, cities, src, dest, dist', prev', time', clock', pq', settled + {u})
    ensures OnlyLowered(dist, prev, dist', prev')
    ensures u in settled ==> pq' == pq
  {
    dist', prev', time', clock', pq' := dist, prev, time, clock, pq;
    for j := 0 to |edges|
      invariant Expanding(adj, cities, src, u, du, settled, dist', prev', time', clock', pq')
      invariant RelaxedUpTo(adj, u, du, j, dist')
      invariant OnlyLowered(dist, prev, dist', prev')
      invariant u in settled ==> pq' == pq
    {
      ghost var before, prevBefore := dist', prev';
      dist', prev', time', clock', pq' :=
        RelaxEdge(adj, cities, src, u, du, j, edges[j], dist', prev', time', clock', pq', settled);
      LoweredTransitive(dist, prev, before, prevBefore, dist', prev');
    }
    assert u in cities;
    FinishExpansion(adj, cities, src, dest, u, du, settled, dist', prev', time', clock', pq');
  }

  /** Polling a minimal entry that is not stale starts the expansion of its city. */
  lemma BeginExpansion(adj: map<City, seq<Edge>>, cities: set<City>, src: City, dest: City,
                       dist: map<City, int>, prev: map<City, City>, time: map<City, nat>, clock: nat,
                       pq: seq<Node>, settled: set<City>, i: nat)
    requires Searching(adj, cities, src, dest, dist, prev, time, clock, pq, settled)
    requires IsMinimal(pq, i) && pq[i].distance == dist[pq[i].city]
    ensures Expanding(adj, cities, src, pq[i].city, pq[i].distance, settled, dist, prev, time, clock, RemoveAt(pq, i))
  {
    var rest := RemoveAt(pq, i);
    var u := pq[i].city;
    forall v | v in cities && v !in settled + {u} && v in dist && dist[v] < MaxValue ensures Node(v, dist[v]) in rest {
      assert Node(v, dist[v]) in pq;
    }
  }

  /** Settling one more city shrinks the set of unsettled cities. */
  lemma SettleShrinks(cities: set<City>, settled: set<City>, u: City)
    requires u in cities
    ensures u !in settled ==> |cities - (settled + {u})| < |cities - settled|
    ensures u in settled ==> settled + {u} == settled
  {
    if u !in settled {
      assert cities - settled == (cities - (settled + {u})) + {u};
    }
  }

  /** When the destination is polled through a minimal entry that is not
      stale, its recorded distance bounds every walk to it. */
  lemma DestinationReached(adj: map<City, seq<Edge>>, cities: set<City>, src: City, dest: City,
                           dist: map<City, int>, prev: map<City, City>, time: map<City, nat>, clock: nat,
                           pq: seq<Node>, settled: set<City>, i: nat)
    requires WellFormed(adj, cities)
    requires Searching(adj, cities, src, dest, dist, prev, time, clock, pq, settled)
    requires IsMinimal(pq, i) && pq[i].city == dest && pq[i].distance == dist[dest]
    ensures BoundsWalks(adj, Distance, src, dest, dist[dest])
  {
    QueueBoundsWalks(adj, cities, src, dest, dist, pq, settled);
    forall p | WalkBetween(adj, p, src, dest) ensures dist[dest] <= PathWeight(adj, p, Distance) {
      if PathWeight(adj, p, Distance) < MaxValue {
        var k :| 0 <= k < |pq| && pq[k].distance <= PathWeight(adj, p, Distance);
      }
    }
  }

  /** When the queue runs empty before the destination is polled, no walk to
      it weighs less than the sentinel, and its distance is the sentinel. */
  lemma QueueExhausted(adj: map<City, seq<Edge>>, cities: set<City>, src: City, dest: City,
                       dist: map<City, int>, prev: map<City, City>, time: map<City, nat>, clock: nat,
                       settled: set<City>)
    requires WellFormed(adj, cities)
    requires Searching(adj, cities, src, dest, dist, prev, time, clock, [], settled)
    requires dest in cities
    ensures dist[dest] == MaxValue
    ensures BoundsWalks(adj, Distance, src, dest, MaxValue)
  {
    QueueBoundsWalks(adj, cities, src, dest, dist, [], settled);
    assert Node(dest, dist[dest]) !in [];
  }

  /** One pass of the main loop: polls a minimal entry; a stale entry is
      dropped; the destination stops the search (`reached`); a city without
      an adjacency list is settled as it is; any other city is settled after
      its half-edges are relaxed. Each pass settles a new city or shortens the
      queue without settling one. */
  method PollNext(adj: map<City, seq<Edge>>, ghost cities: set<City>, ghost src: City, dest: City,
                  distances: map<City, int>, prev: map<City, City>, ghost time: map<City, nat>, ghost clock: nat,
                  pq: seq<Node>, ghost settled: set<City>)
    returns (distances': map<City, int>, prev': map<City, City>, ghost time': map<City, nat>, ghost clock': nat,
             pq': seq<Node>, ghost settled': set<City>, reached: bool)
    requires WellFormed(adj, cities) && pq != []
    requires Searching(adj, cities, src, dest, distances, prev, time, clock, pq, settled)
    ensures reached ==> distances' == distances && prev' == prev && time' == time && clock' == clock
    ensures reached ==> dest in cities && BoundsWalks(adj, Distance, src, dest, distances[dest])
    ensures !reached ==> Searching(adj, cities, src, dest, distances', prev', time', clock', pq', settled')
    ensures !reached ==> |cities - settled'| < |cities - settled| || (settled' == settled && |pq'| < |pq|)
    ensures OnlyLowered(distances, prev, distances', prev')
  {
    distances', prev', time', clock', settled', reached := distances, prev, time, clock, settled, false;
    MinimumExists(pq);
    var i :| IsMinimal(pq, i);
    var current := pq[i];
    pq' := RemoveAt(pq, i);
    if current.distance > distances[current.city] {
      DropStale(adj, cities, src, dest, distances, prev, time, clock, pq, settled, i);
      return;
    }
    if current.city == dest {
      DestinationReached(adj, cities, src, dest, distances, prev, time, clock, pq, settled, i);
      reached := true;
      return;
    }
    SettleShrinks(cities, settled, current.city);
    settled' := settled + {current.city};
    if current.city !in adj {
      SettleIsolated(adj, cities, src, dest, distances, prev, time, clock, pq, settled, i);
      return;
    }
    BeginExpansion(adj, cities, src, dest, distances, prev, time, clock, pq, settled, i);
    distances', prev', time', clock', pq' :=
      RelaxNeighbors(adj, cities, src, dest, current.city, current.distance, adj[current.city],
                     distances, prev, time, clock, pq', settled);
  }

  /** The search starts from the source alone, at distance 0, with nothing settled. */
  lemma InitialSearch(adj: map<City, seq<Edge>>, cities: set<City>, src: City, dest: City, distances: map<City, int>)
    requires src in cities && distances == (map c | c in cities :: MaxValue)[src := 0]
    ensures Searching(adj, cities, src, dest, distances, map[], map c | c in cities :: 0, 1, [Node(src, 0)], {})
  {
    InitialPrevTree(adj, Distance, cities, src, distances);
  }

  /** The main loop of Java's Dijkstra.shortestPath: polls until the queue is
      empty or the destination is reached. Afterwards the recorded distance of
      the destination bounds every walk to it. */
  method Search(adj: map<City, seq<Edge>>, ghost cities: set<City>, src: City, dest: City,
                distances: map<City, int>, prev: map<City, City>, ghost time: map<City, nat>, ghost clock: nat,
                pq: seq<Node>, ghost settled: set<City>)
    returns (distances': map<City, int>, prev': map<City, City>, ghost time': map<City, nat>, ghost clock': nat)
    requires WellFormed(adj, cities)
    requires Searching(adj, cities, src, dest, distances, prev, time, clock, pq, settled)
    ensures PrevTree(adj, Distance, cities, src, distances', prev', time', clock')
    ensures dest in cities ==> BoundsWalks(adj, Distance, src, dest, distances'[dest])
    ensures OnlyLowered(distances, prev, distances', prev')
  {
    distances', prev', time', clock' := distances, prev, time, clock;
    var queue, reached := pq, false;
    ghost var done := settled;
    while queue != []
      invariant Searching(adj, cities, src, dest, distances', prev', time', clock', queue, done)
      invariant OnlyLowered(distances, prev, distances', prev')
      decreases |cities - done|, |queue|
    {
      ghost var before, prevBefore := distances', prev';
      distances', prev', time', clock', queue, done, reached :=
        PollNext(adj, cities, src, dest, distances', prev', time', clock', queue, done);
      LoweredTransitive(distances, prev, before, prevBefore, distances', prev');
      if reached {
        return;
      }
    }
    if dest in cities {
      QueueExhausted(adj, cities, src, dest, distances', prev', time', clock', done);
    }
  }

  /** Java's Dijkstra.shortestPath: the lightest route by distance from `src`
      to `dest`. An unknown source gives the empty route with the sentinel
      distance; a known source with an unknown destination throws; otherwise
      the result is a lightest route, which for `src == dest` is `[src]` at
      distance 0. The order in which equal entries leave the priority queue is
      left open. */
  method ShortestPath(graph: Graph, src: City, dest: City) returns (r: Outcome)
    requires graph.Valid() && NonNegative(graph.adjList, Distance)
    ensures src !in graph.CityNames() ==> r == Ok(NoRoute)
    ensures src in graph.CityNames() && dest !in graph.CityNames() ==> r == NullPointer
    ensures src in graph.CityNames() && dest in graph.CityNames() ==>
              r.Ok? && IsLightestRoute(graph.adjList, Distance, src, dest, r.route)
    ensures src in graph.CityNames() && dest == src ==> r == Ok(Route([src], 0))
  {
    var adj := graph.AdjList();
    var cities := graph.CityNames();
    SymmetricNeighborsListed(adj);
    var distances := map c | c in cities :: MaxValue;
    var prev: map<City, City> := map[];
    if src !in distances {
      return Ok(NoRoute);
    }
    distances := distances[src := 0];
    var pq := [Node(src, 0)];
    InitialSearch(adj, cities, src, dest, distances);
    ghost var time, clock;
    distances, prev, time, clock :=
      Search(adj, cities, src, dest, distances, prev, map c | c in cities :: 0, 1, pq, {});
    r := Reconstruct(adj, Distance, cities, src, dest, distances, prev, time, clock);
    if dest in cities {
      ReconstructedIsLightest(adj, Distance, src, dest, distances[dest], r.route);
    }
  }
}
