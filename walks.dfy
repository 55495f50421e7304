/** Walks through the travel graph and their weight under one of the two
    metrics. A walk is a non-empty sequence of cities in which each city is
    joined to the next by at least one half-edge; each step weighs as much as
    the lightest such half-edge. */
module Walks {
  import opened TravelGraph

  /** Which of the two edge weights a search minimises. */
  datatype Metric = Distance | Cost

  function Weight(e: Edge, m: Metric): int
  {
    match m
    case Distance => e.distance
    case Cost => e.cost
  }

  /** No half-edge carries a negative weight under `m`. */
  ghost predicate NonNegative(adj: map<City, seq<Edge>>, m: Metric)
  {
    forall u, j :: 0 <= j < |Adj(adj, u)| ==> Weight(Adj(adj, u)[j], m) >= 0
  }

  /** Some half-edge leads from `u` to `v`. */
  ghost predicate Adjacent(adj: map<City, seq<Edge>>, u: City, v: City)
  {
    exists j :: 0 <= j < |Adj(adj, u)| && Adj(adj, u)[j].neighborCity == v
  }

  /** The lightest weight among the half-edges of `es` that lead to `v`, if any. */
  function MinWeightTo(es: seq<Edge>, v: City, m: Metric): (r: Option<int>)
    ensures r.Some? <==> exists j :: 0 <= j < |es| && es[j].neighborCity == v
    ensures r.Some? ==> exists j :: 0 <= j < |es| && es[j].neighborCity == v && Weight(es[j], m) == r.value
    ensures r.Some? ==> forall j :: 0 <= j < |es| && es[j].neighborCity == v ==> r.value <= Weight(es[j], m)
  {
    if es == [] then None
    else
      var rest := MinWeightTo(es[1..], v, m);
      assert forall j :: 1 <= j < |es| ==> es[j] == es[1..][j - 1];
      if es[0].neighborCity != v then rest
      else if rest.Some? && rest.value < Weight(es[0], m) then rest
      else Some(Weight(es[0], m))
  }

  /** The weight of one step of a walk. */
  ghost function StepWeight(adj: map<City, seq<Edge>>, u: City, v: City, m: Metric): int
    requires Adjacent(adj, u, v)
  {
    MinWeightTo(Adj(adj, u), v, m).value
  }

  /** A step weighs no more than any half-edge that makes it, and as much as one of them. */
  lemma StepWeightIsLightest(adj: map<City, seq<Edge>>, u: City, v: City, m: Metric)
    requires Adjacent(adj, u, v)
    ensures forall j :: 0 <= j < |Adj(adj, u)| && Adj(adj, u)[j].neighborCity == v ==>
              StepWeight(adj, u, v, m) <= Weight(Adj(adj, u)[j], m)
    ensures exists j :: 0 <= j < |Adj(adj, u)| && Adj(adj, u)[j].neighborCity == v &&
              StepWeight(adj, u, v, m) == Weight(Adj(adj, u)[j], m)
  {
  }

  ghost predicate IsWalk(adj: map<City, seq<Edge>>, p: seq<City>)
  {
    |p| > 0 && forall i :: 0 <= i < |p| - 1 ==> Adjacent(adj, p[i], p[i + 1])
  }

  /** A walk that starts at `src` and ends at `dest`. */
  ghost predicate WalkBetween(adj: map<City, seq<Edge>>, p: seq<City>, src: City, dest: City)
  {
    IsWalk(adj, p) && p[0] == src && p[|p| - 1] == dest
  }

  ghost function PathWeight(adj: map<City, seq<Edge>>, p: seq<City>, m: Metric): int
    requires IsWalk(adj, p)
    decreases |p|
  {
    if |p| == 1 then 0
    else
      assert IsWalk(adj, p[1..]) by {
        forall i | 0 <= i < |p[1..]| - 1 ensures Adjacent(adj, p[1..][i], p[1..][i + 1]) {
          assert Adjacent(adj, p[i + 1], p[i + 2]);
        }
      }
      StepWeight(adj, p[0], p[1], m) + PathWeight(adj, p[1..], m)
  }

  /** With non-negative weights every walk weighs at least zero. */
  lemma {:induction false} PathWeightNonNegative(adj: map<City, seq<Edge>>, p: seq<City>, m: Metric)
    requires NonNegative(adj, m) && IsWalk(adj, p)
    ensures PathWeight(adj, p, m) >= 0
    decreases |p|
  {
    if |p| > 1 {
      StepWeightIsLightest(adj, p[0], p[1], m);
      PathWeightNonNegative(adj, p[1..], m);
    }
  }

  /** Gluing a walk that ends at `x` to a walk that starts at `x` gives a walk
      whose weight is the sum of the two. */
  lemma {:induction false} Join(adj: map<City, seq<Edge>>, a: seq<City>, b: seq<City>, m: Metric)
    requires IsWalk(adj, a) && IsWalk(adj, b) && a[|a| - 1] == b[0]
    ensures IsWalk(adj, a + b[1..])
    ensures PathWeight(adj, a + b[1..], m) == PathWeight(adj, a, m) + PathWeight(adj, b, m)
    decreases |a|
  {
    var ab := a + b[1..];
    forall i | 0 <= i < |ab| - 1 ensures Adjacent(adj, ab[i], ab[i + 1]) {
      if i < |a| - 1 {
        assert ab[i] == a[i] && ab[i + 1] == a[i + 1];
      } else {
        var k := i - (|a| - 1);
        assert ab[i] == b[k] && ab[i + 1] == b[k + 1];
      }
    }
    if |a| == 1 {
      assert ab == b;
    } else {
      assert IsWalk(adj, a[1..]);
      Join(adj, a[1..], b, m);
      assert ab[1..] == a[1..] + b[1..];
    }
  }

  /** Every non-empty slice of a walk is a walk. */
  lemma SubWalk(adj: map<City, seq<Edge>>, p: seq<City>, lo: nat, hi: nat)
    requires IsWalk(adj, p) && lo < hi <= |p|
    ensures IsWalk(adj, p[lo..hi])
  {
    var s := p[lo..hi];
    forall k | 0 <= k < |s| - 1 ensures Adjacent(adj, s[k], s[k + 1]) {
      assert s[k] == p[lo + k] && s[k + 1] == p[lo + k + 1];
    }
  }

  /** Any city of a walk cuts it into two walks whose weights add up. */
  lemma Split(adj: map<City, seq<Edge>>, p: seq<City>, i: nat, m: Metric)
    requires IsWalk(adj, p) && i < |p|
    ensures IsWalk(adj, p[..i + 1]) && IsWalk(adj, p[i..])
    ensures PathWeight(adj, p, m) == PathWeight(adj, p[..i + 1], m) + PathWeight(adj, p[i..], m)
  {
    var front, back := p[..i + 1], p[i..];
    SubWalk(adj, p, 0, i + 1);
    assert p[0..i + 1] == front;
    SubWalk(adj, p, i, |p|);
    assert p[i..|p|] == back;
    Join(adj, front, back, m);
    assert back[1..] == p[i + 1..];
    assert front + back[1..] == p;
  }

  /** Extending a walk by one step adds that step's weight. */
  lemma Extend(adj: map<City, seq<Edge>>, q: seq<City>, v: City, m: Metric)
    requires IsWalk(adj, q) && Adjacent(adj, q[|q| - 1], v)
    ensures IsWalk(adj, q + [v])
    ensures PathWeight(adj, q + [v], m) == PathWeight(adj, q, m) + StepWeight(adj, q[|q| - 1], v, m)
  {
    var step := [q[|q| - 1], v];
    assert IsWalk(adj, step);
    assert step[1..] == [v];
    Join(adj, q, step, m);
  }

  /** A sequence longer than the set its elements come from repeats an element. */
  lemma {:induction false} Pigeonhole(p: seq<City>, cities: set<City>)
    requires forall i :: 0 <= i < |p| ==> p[i] in cities
    requires |p| > |cities|
    ensures exists i, j :: 0 <= i < j < |p| && p[i] == p[j]
    decreases |p|
  {
    if p[0] in p[1..] {
      var j :| 0 <= j < |p[1..]| && p[1..][j] == p[0];
      assert p[0] == p[j + 1];
    } else {
      var rest := cities - {p[0]};
      assert forall i :: 0 <= i < |p[1..]| ==> p[1..][i] in rest;
      Pigeonhole(p[1..], rest);
      var i, j :| 0 <= i < j < |p[1..]| && p[1..][i] == p[1..][j];
      assert p[i + 1] == p[j + 1];
    }
  }

  /** Cutting out the closed sub-walk between two visits of the same city
      leaves a walk between the same endpoints that weighs no more. */
  lemma CutLoop(adj: map<City, seq<Edge>>, p: seq<City>, i: nat, j: nat, m: Metric)
    requires NonNegative(adj, m) && IsWalk(adj, p)
    requires i < j < |p| && p[i] == p[j]
    ensures IsWalk(adj, p[..i + 1] + p[j + 1..])
    ensures PathWeight(adj, p[..i + 1] + p[j + 1..], m) <= PathWeight(adj, p, m)
  {
    Split(adj, p, j, m);
    var pre := p[..j + 1];
    Split(adj, pre, i, m);
    assert pre[..i + 1] == p[..i + 1];
    assert pre[i..] == p[i..j + 1];
    PathWeightNonNegative(adj, p[i..j + 1], m);
    Join(adj, p[..i + 1], p[j..], m);
    assert p[j..][1..] == p[j + 1..];
  }

  /** A walk that stays among `cities` but has more entries than there are
      cities contains a loop; cutting it out gives a shorter walk between the
      same endpoints, still among `cities`, that weighs no more. */
  lemma CutSomeLoop(adj: map<City, seq<Edge>>, p: seq<City>, cities: set<City>, m: Metric) returns (q: seq<City>)
    requires NonNegative(adj, m) && IsWalk(adj, p) && |p| > |cities|
    requires forall k :: 0 <= k < |p| ==> p[k] in cities
    ensures WalkBetween(adj, q, p[0], p[|p| - 1]) && |q| < |p|
    ensures forall k :: 0 <= k < |q| ==> q[k] in cities
    ensures PathWeight(adj, q, m) <= PathWeight(adj, p, m)
  {
    Pigeonhole(p, cities);
    var i, j :| 0 <= i < j < |p| && p[i] == p[j];
    CutLoop(adj, p, i, j, m);
    q := CutLoopShape(p, i, j, cities);
  }

  /** The sequence left by cutting a loop is shorter, keeps both endpoints, and
      holds only cities of `cities`. */
  lemma CutLoopShape(p: seq<City>, i: nat, j: nat, cities: set<City>) returns (q: seq<City>)
    requires i < j < |p| && p[i] == p[j]
    requires forall k :: 0 <= k < |p| ==> p[k] in cities
    ensures q == p[..i + 1] + p[j + 1..]
    ensures |q| < |p| && q[0] == p[0] && q[|q| - 1] == p[|p| - 1]
    ensures forall k :: 0 <= k < |q| ==> q[k] in cities
  {
    q := p[..i + 1] + p[j + 1..];
    assert q[0] == p[0];
    if j + 1 < |p| {
      assert q[|q| - 1] == p[j + 1..][|p| - j - 2];
    }
    forall k | 0 <= k < |q| ensures q[k] in cities {
      if k <= i { assert q[k] == p[k]; } else { assert q[k] == p[j + 1 + (k - i - 1)]; }
    }
  }

  /** With non-negative weights, a walk that stays among `cities` can be cut down
      to one of at most |cities| cities (at most |cities| - 1 steps) between the
      same two endpoints that weighs no more. */
  lemma {:induction false} Shortcut(adj: map<City, seq<Edge>>, p: seq<City>, cities: set<City>, m: Metric)
    requires NonNegative(adj, m) && IsWalk(adj, p)
    requires forall i :: 0 <= i < |p| ==> p[i] in cities
    ensures exists q :: WalkBetween(adj, q, p[0], p[|p| - 1]) && |q| <= |cities| && PathWeight(adj, q, m) <= PathWeight(adj, p, m)
    decreases |p|
  {
    if |p| <= |cities| {
      assert WalkBetween(adj, p, p[0], p[|p| - 1]);
    } else {
      var shorter := CutSomeLoop(adj, p, cities, m);
      Shortcut(adj, shorter, cities, m);
      var q :| WalkBetween(adj, q, shorter[0], shorter[|shorter| - 1]) && |q| <= |cities| && PathWeight(adj, q, m) <= PathWeight(adj, shorter, m);
      assert WalkBetween(adj, q, p[0], p[|p| - 1]);
    }
  }

  /** A walk from a listed city, in a graph whose neighbours are all listed,
      visits listed cities only. */
  lemma {:induction false} WalkStaysListed(adj: map<City, seq<Edge>>, p: seq<City>, cities: set<City>)
    requires NeighborsListed(adj) && adj.Keys <= cities
    requires IsWalk(adj, p) && p[0] in cities
    ensures forall i :: 0 <= i < |p| ==> p[i] in cities
  {
    forall i | 0 <= i < |p| ensures p[i] in cities {
      if i > 0 {
        assert Adjacent(adj, p[i - 1], p[i]);
        var j :| 0 <= j < |Adj(adj, p[i - 1])| && Adj(adj, p[i - 1])[j].neighborCity == p[i];
      }
    }
  }
}
