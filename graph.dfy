/** The in-memory travel graph: an adjacency map from city name to its list of
    half-edges, and a coordinate map from city name to its last registered
    position. */
module TravelGraph {

  type City = string

  /** One half of an undirected route, stored in the list of the city it starts from. */
  datatype Edge = Edge(neighborCity: City, distance: int, cost: int)

  /** A latitude/longitude pair. Only its presence under a key matters to the path engine. */
  datatype Coordinates = Coordinates(lat: real, lon: real)

  datatype Option<T> = None | Some(value: T)

  /** The half-edges leaving `c`; a city without a list has none. */
  function Adj(adj: map<City, seq<Edge>>, c: City): seq<Edge>
  {
    if c in adj then adj[c] else []
  }

  /** Every half-edge is matched by its mirror image, counted with multiplicity:
      the lists of `u` and `v` hold as many copies of `Edge(v, d, c)` and
      `Edge(u, d, c)` respectively. */
  ghost predicate Symmetric(adj: map<City, seq<Edge>>)
  {
    forall u, v, d, c :: Copies(adj, u, Edge(v, d, c)) == Copies(adj, v, Edge(u, d, c))
  }

  /** How many times `e` occurs in the list of `u`. */
  ghost function Copies(adj: map<City, seq<Edge>>, u: City, e: Edge): nat
  {
    multiset(Adj(adj, u))[e]
  }

  /** Every neighbour named in an adjacency list is itself a key of the map. */
  ghost predicate NeighborsListed(adj: map<City, seq<Edge>>)
  {
    forall u, j :: 0 <= j < |Adj(adj, u)| ==> Adj(adj, u)[j].neighborCity in adj
  }

  /** In a symmetric map every neighbour has a list of its own. */
  lemma SymmetricNeighborsListed(adj: map<City, seq<Edge>>)
    ensures Symmetric(adj) ==> NeighborsListed(adj)
  {
    if Symmetric(adj) {
      forall u, j | 0 <= j < |Adj(adj, u)|
        ensures Adj(adj, u)[j].neighborCity in adj
      {
        var e := Adj(adj, u)[j];
        assert e in multiset(Adj(adj, u));
        assert Copies(adj, u, Edge(e.neighborCity, e.distance, e.cost)) > 0;
        assert Copies(adj, e.neighborCity, Edge(u, e.distance, e.cost)) > 0;
      }
    }
  }

  /** The map after appending `e` to the list of `c` (creating the list when absent). */
  function Append(adj: map<City, seq<Edge>>, c: City, e: Edge): map<City, seq<Edge>>
  {
    adj[c := Adj(adj, c) + [e]]
  }

  /** Appending `e` to the list of `c` adds exactly one copy of `e` there and nothing elsewhere. */
  lemma AppendCount(adj: map<City, seq<Edge>>, c: City, e: Edge, x: City, f: Edge)
    ensures Copies(Append(adj, c, e), x, f) == Copies(adj, x, f) + (if x == c && f == e then 1 else 0)
  {
    if x != c {
      assert Adj(Append(adj, c, e), x) == Adj(adj, x);
    }
  }

  /** The adjacency map after adding the undirected route `src`–`dest`: one
      half-edge at the end of the list of `src`, then one at the end of the
      list of `dest` (both on the same list when the endpoints coincide). */
  function AddRoute(adj: map<City, seq<Edge>>, src: City, dest: City, distance: int, cost: int): (r: map<City, seq<Edge>>)
    ensures r.Keys == adj.Keys + {src, dest}
    ensures src != dest ==> r[src] == Adj(adj, src) + [Edge(dest, distance, cost)]
    ensures src != dest ==> r[dest] == Adj(adj, dest) + [Edge(src, distance, cost)]
    ensures src == dest ==> r[src] == Adj(adj, src) + [Edge(dest, distance, cost), Edge(src, distance, cost)]
    ensures forall x :: x in adj && x != src && x != dest ==> r[x] == adj[x]
  {
    Append(Append(adj, src, Edge(dest, distance, cost)), dest, Edge(src, distance, cost))
  }

  /** Adding a route adds one copy of each half-edge, each to its own list. */
  lemma AddRouteCount(adj: map<City, seq<Edge>>, src: City, dest: City, distance: int, cost: int, x: City, f: Edge)
    ensures Copies(AddRoute(adj, src, dest, distance, cost), x, f)
         == Copies(adj, x, f)
            + (if x == src && f == Edge(dest, distance, cost) then 1 else 0)
            + (if x == dest && f == Edge(src, distance, cost) then 1 else 0)
  {
    var e1 := Edge(dest, distance, cost);
    AppendCount(adj, src, e1, x, f);
    AppendCount(Append(adj, src, e1), dest, Edge(src, distance, cost), x, f);
  }

  /** Adding both halves of one route keeps the adjacency map symmetric,
      also when the two endpoints coincide. */
  lemma AddRouteKeepsSymmetry(adj: map<City, seq<Edge>>, src: City, dest: City, distance: int, cost: int)
    requires Symmetric(adj)
    ensures Symmetric(AddRoute(adj, src, dest, distance, cost))
  {
    var r := AddRoute(adj, src, dest, distance, cost);
    forall u, v, d, c
      ensures Copies(r, u, Edge(v, d, c)) == Copies(r, v, Edge(u, d, c))
    {
      AddRouteCount(adj, src, dest, distance, cost, u, Edge(v, d, c));
      AddRouteCount(adj, src, dest, distance, cost, v, Edge(u, d, c));
    }
  }

  class Graph {
    var adjList: map<City, seq<Edge>>
    var cityCoordinates: map<City, Coordinates>

    /** The object invariant: routes are stored in both directions. */
    ghost predicate Valid()
      reads this
    {
      Symmetric(adjList)
    }

    constructor ()
      ensures Valid()
      ensures adjList == map[] && cityCoordinates == map[]
    {
      adjList := map[];
      cityCoordinates := map[];
    }

    /** Registers the position of `city`; a later call for the same city replaces it. */
    method AddCityCoordinates(city: City, lat: real, lon: real)
      requires Valid()
      modifies this
      ensures Valid()
      ensures cityCoordinates == old(cityCoordinates)[city := Coordinates(lat, lon)]
      ensures adjList == old(adjList)
      ensures CityNames() == old(CityNames()) + {city}
    {
      cityCoordinates := cityCoordinates[city := Coordinates(lat, lon)];
    }

    /** The last position registered for `city`, or nothing (Java's null). */
    function GetCoordinates(city: City): (r: Option<Coordinates>)
      reads this
      ensures r.Some? <==> city in cityCoordinates
      ensures r.Some? ==> r.value == cityCoordinates[city]
    {
      if city in cityCoordinates then Some(cityCoordinates[city]) else None
    }

    /** Adds an undirected route: one half-edge at the end of the list of
        `src`, one at the end of the list of `dest`. No deduplication. */
    method AddEdge(src: City, dest: City, distance: int, cost: int)
      requires Valid()
      modifies this
      ensures Valid()
      ensures adjList.Keys == old(adjList).Keys + {src, dest}
      ensures src != dest ==> adjList[src] == old(Adj(adjList, src)) + [Edge(dest, distance, cost)]
      ensures src != dest ==> adjList[dest] == old(Adj(adjList, dest)) + [Edge(src, distance, cost)]
      ensures src == dest ==> adjList[src] == old(Adj(adjList, src)) + [Edge(dest, distance, cost), Edge(src, distance, cost)]
      ensures forall x :: x in old(adjList) && x != src && x != dest ==> adjList[x] == old(adjList)[x]
      ensures cityCoordinates == old(cityCoordinates)
      ensures CityNames() == old(CityNames()) + {src, dest}
    {
      AddRouteKeepsSymmetry(adjList, src, dest, distance, cost);
      adjList := AddRoute(adjList, src, dest, distance, cost);
    }

    /** Read-only view of the adjacency map: every city in it is a known
        city, and in a valid graph every neighbour named in a list is a key. */
    function AdjList(): (r: map<City, seq<Edge>>)
      reads this
      ensures r.Keys <= CityNames()
      ensures Valid() ==> NeighborsListed(r)
    {
      SymmetricNeighborsListed(adjList);
      adjList
    }

    /** Every city the graph knows: the union of the cities with a list and
        the cities with a position. */
    function CityNames(): (r: set<City>)
      reads this
      ensures forall c :: c in r <==> c in adjList || c in cityCoordinates
    {
      adjList.Keys + cityCoordinates.Keys
    }
  }
}
