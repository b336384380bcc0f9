/** The benchmark variant of dijk_generated.cpp: the stale-check search
    with the explored edges appended to the caller's log, and a main that
    reads an undirected graph and reconstructs the path from vertex 0 to
    the last vertex. */
module DijkGenerated {
  import opened Graphs
  import opened GraphIO
  import opened StaleSearch
  import opened DijkstraGenerated

  /** The search from `s`; the target `t` is accepted and never consulted,
      so the labels are exact for every vertex and the log covers every
      reached vertex's edges, in settling order. */
  method RunDijkGenerated(g: Graph, s: nat, t: int, explored0: seq<(nat, nat)>)
    returns (dist: seq<Dist>, explored: seq<(nat, nat)>, prev: seq<int>, ghost order: seq<nat>, ghost rank: seq<nat>)
    requires WellFormed(g) && s < |g|
    ensures |dist| == |g| && |prev| == |g|
    ensures forall v :: 0 <= v < |g| ==> dist[v] == Delta(g, s, v)
    ensures forall v :: 0 <= v < |g| ==> (prev[v] == -1 <==> v == s || dist[v].Inf?)
    ensures forall v :: 0 <= v < |g| && prev[v] != -1 ==>
      0 <= prev[v] < |g| && TreeEdge(g, dist, prev[v], v)
    ensures PrevRanked(prev, rank)
    ensures forall k :: 0 <= k < |order| ==> order[k] < |g| && dist[order[k]].Fin?
    ensures forall v :: 0 <= v < |g| && dist[v].Fin? ==> v in order
    ensures forall a, b :: 0 <= a < b < |order| ==> order[a] != order[b] && AtMost(dist[order[a]], dist[order[b]])
    ensures explored == explored0 + Log(g, order)
  {
    var log;
    dist, prev, log, order, rank := Search(g, s);
    explored := explored0 + log;
  }

  /** The program's main with the files taken out: the undirected graph of the triples,
      the search from 0, and the path to `n - 1`. The path is written even
      when `n - 1` was never reached; it is then that vertex alone. */
  method Program(n: nat, es: seq<Triple>)
    returns (g: Graph, dist: seq<Dist>, explored: seq<(nat, nat)>, path: seq<nat>)
    requires TriplesIn(n, es) && n > 0
    ensures |g| == n && Symmetric(g) && forall u :: 0 <= u < n ==> g[u] == Incident(es, u)
    ensures |dist| == n && forall v :: 0 <= v < n ==> dist[v] == Delta(g, 0, v)
    ensures |path| >= 1 && path[|path| - 1] == n - 1
    ensures dist[n - 1].Inf? ==> path == [n - 1]
    ensures dist[n - 1].Fin? ==> path[0] == 0 && TreePath(g, dist, 0, n - 1, Pairs(path))
    ensures forall i, j :: 0 <= i < j < |path| ==> path[i] != path[j]
  {
    g := BuildUndirected(n, es);
    UndirectedSymmetric(n, es, g);
    var prev;
    ghost var order, rank;
    dist, explored, prev, order, rank := RunDijkGenerated(g, 0, n - 1, []);
    path := ReconstructPath(prev, n - 1, rank);
    if dist[n - 1].Fin? {
      PairsTreePath(g, 0, n - 1, dist, prev, path);
      PathFromSource(g, 0, dist, prev, path);
    }
  }
}
