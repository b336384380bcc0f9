/**
  astar/astar_weighted.cpp: `astar_weighted`, A* whose frontier priority is
  `g + w * h` and which never reopens a closed vertex. The weight `w` is the
  fraction `num / den` (the source's default 1.5 is `3 / 2`) and the
  heuristic is a given array (the source fills it with straight-line
  distances, which are not modelled).
 */
module AStarWeighted {
  import opened Graphs
  import opened Settling
  import LazySearch
  import DijkLazy

  /** The scaled priority orders the frontier exactly as `g + w * h` with `w = num / den`. */
  lemma PriorityOrder(h: seq<nat>, num: nat, den: nat, a: nat, ga: nat, b: nat, gb: nat)
    requires a < |h| && b < |h| && den > 0
    ensures Priority(h, num, den, a, ga) <= Priority(h, num, den, b, gb) <==>
      ga as real + (num as real / den as real) * h[a] as real <= gb as real + (num as real / den as real) * h[b] as real
  {
    var w := num as real / den as real;
    assert w * den as real == num as real;
    var fa := ga as real + w * h[a] as real;
    var fb := gb as real + w * h[b] as real;
    assert Priority(h, num, den, a, ga) as real == den as real * fa;
    assert Priority(h, num, den, b, gb) as real == den as real * fb;
    ScaleOrder(den as real, fa, fb);
  }

  lemma ScaleOrder(k: real, x: real, y: real)
    requires k > 0.0
    ensures k * x <= k * y <==> x <= y
  {
    if x <= y {
      assert k * (y - x) >= 0.0;
    } else {
      assert k * (x - y) > 0.0;
    }
  }

  /** `astar_weighted(G, s, t, h, w)`: every finite label is the cost of a
      walk, so no label is below the shortest distance; a reachable `t` is
      always reached; and with a consistent heuristic and `w >= 1` the label
      of `t` (of every vertex, when `t` is not a vertex) is within the factor
      `w` of the shortest distance, although closed vertices are never reopened. */
  method AStarWeighted(g: Graph, s: nat, t: int, h: seq<nat>, num: nat, den: nat)
    returns (gd: seq<Dist>, nodesExpanded: nat)
    requires WellFormed(g) && s < |g| && |h| == |g| && den > 0
    ensures |gd| == |g| && gd[s] == Fin(0)
    ensures Achieved(g, s, gd)
    ensures forall v :: 0 <= v < |g| && gd[v].Fin? ==> Delta(g, s, v).Fin? && Delta(g, s, v).n <= gd[v].n
    ensures 0 <= t < |g| && Reachable(g, s, t) ==> gd[t].Fin?
    ensures Consistent(g, h) && den <= num && 0 <= t < |g| && Reachable(g, s, t) ==>
      den * gd[t].n <= num * Delta(g, s, t).n
    ensures Consistent(g, h) && den <= num && !(0 <= t < |g|) ==>
      forall v :: 0 <= v < |g| && Reachable(g, s, v) ==> gd[v].Fin? && den * gd[v].n <= num * Delta(g, s, v).n
    ensures nodesExpanded <= |g|
  {
    var closed;
    gd, closed, nodesExpanded := LazySearch.Search(g, s, t, h, num, den);
    forall v | 0 <= v < |g| && gd[v].Fin? ensures Delta(g, s, v).Fin? && Delta(g, s, v).n <= gd[v].n {
      DeltaBelow(g, s, v, gd[v].n);
    }
    if Consistent(g, h) && den <= num {
      forall v | 0 <= v < |g| && closed[v] && Reachable(g, s, v)
        ensures den * gd[v].n <= num * Delta(g, s, v).n
      {
        DeltaWithin(g, s, v, gd[v].n, num, den);
      }
    }
  }

  /** With `w = 1` and `h = 0` the search is `dijkstra_lazy` with the same target. */
  method UnweightedIsLazy(g: Graph, s: nat, t: int) returns (a: seq<Dist>, b: seq<Dist>)
    requires WellFormed(g) && s < |g|
    ensures |a| == |b| == |g|
    ensures 0 <= t < |g| ==> a[t] == b[t]
    ensures !(0 <= t < |g|) ==> a == b
  {
    ZerosConsistent(g);
    var n1, n2;
    a, n1 := AStarWeighted(g, s, t, Zeros(|g|), 1, 1);
    b, n2 := DijkLazy.DijkstraLazy(g, s, t);
    if 0 <= t < |g| {
      AgreeAt(g, s, a, t);
    } else {
      forall v | 0 <= v < |g| ensures a[v] == b[v] {
        AgreeAt(g, s, a, v);
      }
    }
  }

  /** A label within factor 1 of the shortest distance and achieved by a
      walk, or `Inf` for an unreachable vertex, is the shortest distance. */
  lemma AgreeAt(g: Graph, s: nat, a: seq<Dist>, v: nat)
    requires v < |a| && Achieved(g, s, a)
    requires Reachable(g, s, v) ==> a[v].Fin? && 1 * a[v].n <= 1 * Delta(g, s, v).n
    ensures a[v] == Delta(g, s, v)
  {
    if a[v].Fin? {
      DeltaBelow(g, s, v, a[v].n);
    }
  }
}
