/** The stand-alone program of Dijkstra_generated.cpp: a directed graph
    read as triples, the stale-check search from a fixed start, the set of
    explored edges, and the shortest path to a fixed target written out as
    consecutive vertex pairs. */
module DijkstraGenerated {
  import opened Graphs
  import opened GraphIO
  import opened StaleSearch

  /** Exactly the pairs `(u, v)` such that `u` was reached and has an edge to `v`. */
  ghost predicate ExploredExactly(g: Graph, dist: seq<Dist>, explored: set<(nat, nat)>)
    requires |dist| == |g|
  {
    forall u: nat, v: nat :: (u, v) in explored <==>
      u < |g| && dist[u].Fin? && exists j :: 0 <= j < |g[u]| && g[u][j].to == v
  }

  /** The written-out pairs chain from `s` to `t` along edges that achieve
      the labels; no pairs at all when `t` is the start itself. */
  ghost predicate TreePath(g: Graph, dist: seq<Dist>, s: nat, t: nat, pairs: seq<(nat, nat)>)
    requires |dist| == |g|
  {
    (|pairs| == 0 ==> s == t) &&
    (|pairs| > 0 ==> pairs[0].0 == s && pairs[|pairs| - 1].1 == t) &&
    (forall k :: 0 <= k < |pairs| - 1 ==> pairs[k].1 == pairs[k + 1].0) &&
    (forall k :: 0 <= k < |pairs| ==>
      pairs[k].0 < |g| && pairs[k].1 < |g| && TreeEdge(g, dist, pairs[k].0, pairs[k].1))
  }

  /** The logged pairs, gathered into a set as the hash set of the program does. */
  lemma ExploredSet(g: Graph, dist: seq<Dist>, order: seq<nat>, log: seq<(nat, nat)>)
    requires |dist| == |g|
    requires forall k :: 0 <= k < |order| ==> order[k] < |g| && dist[order[k]].Fin?
    requires log == Log(g, order)
    requires forall v :: 0 <= v < |g| && dist[v].Fin? ==> v in order
    ensures ExploredExactly(g, dist, set p | p in log)
  {
    LogMembers(g, order);
    forall u: nat, v: nat ensures (u, v) in (set p | p in log) <==>
      u < |g| && dist[u].Fin? && exists j :: 0 <= j < |g[u]| && g[u][j].to == v
    {
      if (u, v) in log {
        var k, j :| 0 <= k < |order| && 0 <= j < |g[order[k]]| && (u, v) == (order[k], g[order[k]][j].to);
      }
      if u < |g| && dist[u].Fin? && exists j :: 0 <= j < |g[u]| && g[u][j].to == v {
        var j :| 0 <= j < |g[u]| && g[u][j].to == v;
        var k :| 0 <= k < |order| && order[k] == u;
        assert (u, v) == (order[k], g[order[k]][j].to);
      }
    }
  }

  /** The pairs of a reconstructed path to a reached target form a tree path from the start. */
  lemma PairsTreePath(g: Graph, s: nat, t: nat, dist: seq<Dist>, prev: seq<int>, path: seq<nat>)
    requires |dist| == |g| && |prev| == |g| && t < |g|
    requires forall v :: 0 <= v < |g| ==> (prev[v] == -1 <==> v == s || dist[v].Inf?)
    requires forall v :: 0 <= v < |g| && prev[v] != -1 ==> 0 <= prev[v] < |g| && TreeEdge(g, dist, prev[v], v)
    requires |path| >= 1 && path[|path| - 1] == t && forall i :: 0 <= i < |path| ==> path[i] < |g|
    requires forall i :: 0 <= i < |path| - 1 ==> path[i] == prev[path[i + 1]]
    requires prev[path[0]] == -1 && dist[t].Fin?
    ensures TreePath(g, dist, s, t, Pairs(path))
  {
    PathFromSource(g, s, dist, prev, path);
    var r := Pairs(path);
    if |r| > 0 {
      assert r[0] == (path[0], path[1]);
      assert r[|r| - 1] == (path[|path| - 2], path[|path| - 1]);
    }
    forall k | 0 <= k < |r| - 1 ensures r[k].1 == r[k + 1].0 {
      assert r[k] == (path[k], path[k + 1]) && r[k + 1] == (path[k + 1], path[k + 2]);
    }
    forall k | 0 <= k < |r|
      ensures r[k].0 < |g| && r[k].1 < |g| && TreeEdge(g, dist, r[k].0, r[k].1)
    {
      assert r[k] == (path[k], path[k + 1]);
    }
  }

  /** The tail of the program: the path to `t` along `prev`, written as
      pairs when `t` was reached and left empty otherwise. */
  method EmitPath(g: Graph, s: nat, t: nat, dist: seq<Dist>, prev: seq<int>, ghost rank: seq<nat>)
    returns (pairs: seq<(nat, nat)>)
    requires |dist| == |g| && |prev| == |g| && s < |g| && t < |g|
    requires dist[s] == Fin(0) && PrevRanked(prev, rank)
    requires forall v :: 0 <= v < |g| ==> (prev[v] == -1 <==> v == s || dist[v].Inf?)
    requires forall v :: 0 <= v < |g| && prev[v] != -1 ==> 0 <= prev[v] < |g| && TreeEdge(g, dist, prev[v], v)
    ensures dist[t].Inf? ==> pairs == []
    ensures dist[t].Fin? ==> TreePath(g, dist, s, t, pairs)
    ensures dist[t].Fin? ==>
      exists p :: IsWalk(g, s, p, t) && Follows(g, p, pairs) && Cost(g, p) == dist[t].n
    ensures dist[t].Fin? ==> forall k :: 0 <= k < |pairs| ==> pairs[k].1 < |prev| && pairs[k].0 == prev[pairs[k].1]
  {
    var path := ReconstructPath(prev, t, rank);
    if dist[t].Inf? {
      pairs := [];
    } else {
      pairs := WritePairs(path);
      PairsTreePath(g, s, t, dist, prev, path);
      ghost var p := TreePathWalk(g, dist, s, t, pairs);
    }
  }

  /** The program's main with the file handling taken out: `n` vertices,
      the edge triples, the start and the target. */
  method Run(n: nat, es: seq<Triple>, start: nat, target: nat)
    returns (g: Graph, dist: seq<Dist>, explored: set<(nat, nat)>, pairs: seq<(nat, nat)>)
    requires TriplesIn(n, es) && start < n && target < n
    ensures |g| == n && forall u :: 0 <= u < n ==> g[u] == Outgoing(es, u)
    ensures |dist| == n && forall v :: 0 <= v < n ==> dist[v] == Delta(g, start, v)
    ensures ExploredExactly(g, dist, explored)
    ensures dist[target].Inf? ==> pairs == []
    ensures dist[target].Fin? ==> TreePath(g, dist, start, target, pairs)
    ensures dist[target].Fin? ==>
      exists p :: IsWalk(g, start, p, target) && Follows(g, p, pairs) && Cost(g, p) == dist[target].n
  {
    g := BuildDirected(n, es);
    DirectedMembers(n, es, g);
    var prev, log;
    ghost var order, rank;
    dist, prev, log, order, rank := Search(g, start);
    explored := set p | p in log;
    ExploredSet(g, dist, order, log);
    DeltaSelf(g, start);
    pairs := EmitPath(g, start, target, dist, prev, rank);
  }

  /** The walk `p` takes, hop by hop, the edges the pairs name. */
  ghost predicate Follows(g: Graph, p: seq<Hop>, pairs: seq<(nat, nat)>) {
    && |p| == |pairs|
    && forall k :: 0 <= k < |p| ==>
      p[k].from == pairs[k].0 && p[k].from < |g| && p[k].index < |g[p[k].from]| &&
      g[p[k].from][p[k].index].to == pairs[k].1
  }

  lemma FollowsExtend(g: Graph, q: seq<Hop>, front: seq<(nat, nat)>, u: nat, j: nat)
    requires Follows(g, q, front) && u < |g| && j < |g[u]|
    ensures Follows(g, q + [Hop(u, j)], front + [(u, g[u][j].to)])
  {
    var p, pairs := q + [Hop(u, j)], front + [(u, g[u][j].to)];
    forall k | 0 <= k < |p|
      ensures p[k].from == pairs[k].0 && p[k].from < |g| && p[k].index < |g[p[k].from]| &&
        g[p[k].from][p[k].index].to == pairs[k].1
    {
      if k < |q| {
        assert p[k] == q[k] && pairs[k] == front[k];
      }
    }
  }

  /** Dropping the last pair of a tree path leaves a tree path to that pair's tail. */
  lemma TreePathFront(g: Graph, dist: seq<Dist>, s: nat, t: nat, pairs: seq<(nat, nat)>)
    requires |dist| == |g| && TreePath(g, dist, s, t, pairs) && |pairs| > 0
    ensures var u := pairs[|pairs| - 1].0;
      && u < |g| && t < |g| && pairs[|pairs| - 1].1 == t && TreeEdge(g, dist, u, t)
      && TreePath(g, dist, s, u, pairs[..|pairs| - 1])
  {
    var front := pairs[..|pairs| - 1];
    if |front| > 0 {
      assert front[|front| - 1].1 == pairs[|pairs| - 1].0;
    }
  }

  /** A tree path is a walk from the start whose cost is the target's label:
      with exact labels, the written-out pairs are a shortest path. */
  lemma {:induction false} TreePathWalk(g: Graph, dist: seq<Dist>, s: nat, t: nat, pairs: seq<(nat, nat)>)
    returns (p: seq<Hop>)
    requires |dist| == |g| && s < |g| && dist[s] == Fin(0)
    requires TreePath(g, dist, s, t, pairs)
    ensures IsWalk(g, s, p, t) && Follows(g, p, pairs)
    ensures dist[t].Fin? && Cost(g, p) == dist[t].n
    decreases |pairs|
  {
    if |pairs| == 0 {
      p := [];
    } else {
      var front, u := pairs[..|pairs| - 1], pairs[|pairs| - 1].0;
      TreePathFront(g, dist, s, t, pairs);
      var q := TreePathWalk(g, dist, s, u, front);
      var j :| 0 <= j < |g[u]| && g[u][j].to == t && dist[t].n == dist[u].n + g[u][j].w;
      WalkExtend(g, s, q, u, j);
      FollowsExtend(g, q, front, u, j);
      assert pairs == front + [(u, g[u][j].to)];
      p := q + [Hop(u, j)];
    }
  }
}
