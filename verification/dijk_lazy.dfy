/**
  dijkstra/dijk_lazy.cpp: `dijkstra_lazy`, Dijkstra's algorithm over a lazy
  priority queue with an optional early stop at `t`. The trace file, the
  clock and the memory report are not modelled; the `nodes` counter is.
 */
module DijkLazy {
  import opened Graphs
  import opened Settling
  import LazySearch

  /** `dijkstra_lazy(G, s, t)`: distances from `s`, exact at `t` when `t` is a
      vertex and exact everywhere when it is not (the default `t = -1`). */
  method DijkstraLazy(g: Graph, s: nat, t: int) returns (dist: seq<Dist>, nodes: nat)
    requires WellFormed(g) && s < |g|
    ensures |dist| == |g| && dist[s] == Fin(0)
    ensures Achieved(g, s, dist)
    ensures forall v :: 0 <= v < |g| && !Reachable(g, s, v) ==> dist[v].Inf?
    ensures 0 <= t < |g| ==> dist[t] == Delta(g, s, t)
    ensures !(0 <= t < |g|) ==> forall v :: 0 <= v < |g| ==> dist[v] == Delta(g, s, v)
    ensures nodes <= |g|
  {
    ZerosConsistent(g);
    var vis;
    dist, vis, nodes := LazySearch.Search(g, s, t, Zeros(|g|), 1, 1);
    if 0 <= t < |g| {
      ExactWhenSettled(g, s, dist, vis, t);
    } else {
      forall v | 0 <= v < |g| ensures dist[v] == Delta(g, s, v) {
        ExactWhenSettled(g, s, dist, vis, v);
      }
    }
  }
}
