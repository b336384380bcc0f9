/**
  Label setting with lazy re-insertion: a `std::priority_queue` that may hold
  several entries per vertex, and a `vis` array that discards the entries of
  settled vertices (dijkstra/dijk_lazy.cpp, the preprocessing `dijkstra` and
  `astar_best` of astar/astar_alt.cpp, astar/astar_weighted.cpp).

  One engine serves all of them: its frontier priority is
  `den * g + num * h` (see `Settling`).
 */
module LazySearch {
  import opened Graphs
  import opened PriorityQueue
  import opened Settling

  /** Every entry names a vertex, and an entry of an unsettled vertex carries a
      finite label whose priority is at most the entry's key. */
  ghost predicate EntriesBound(h: seq<nat>, num: nat, den: nat, dist: seq<Dist>, vis: seq<bool>, pq: seq<Entry>)
    requires |h| == |vis| == |dist|
  {
    forall e :: e in pq ==> (e.vertex < |vis| &&
      (!vis[e.vertex] ==> dist[e.vertex].Fin? && Priority(h, num, den, e.vertex, dist[e.vertex].n) <= e.key))
  }

  /** Every unsettled labelled vertex has an entry keyed by its current priority. */
  ghost predicate OpenQueued(h: seq<nat>, num: nat, den: nat, dist: seq<Dist>, vis: seq<bool>, pq: seq<Entry>)
    requires |h| == |vis| == |dist|
  {
    forall v :: 0 <= v < |vis| && !vis[v] && dist[v].Fin? ==> Entry(Priority(h, num, den, v, dist[v].n), v) in pq
  }

  /** Lowering an unsettled label and pushing its new priority keeps both
      frontier invariants. */
  lemma PushLowered(h: seq<nat>, num: nat, den: nat, dist: seq<Dist>, vis: seq<bool>, pq: seq<Entry>,
                    v: nat, c: nat, dist': seq<Dist>, pq': seq<Entry>)
    requires |h| == |vis| == |dist| && v < |vis| && !vis[v] && Below(c, dist[v])
    requires EntriesBound(h, num, den, dist, vis, pq) && OpenQueued(h, num, den, dist, vis, pq)
    requires dist' == dist[v := Fin(c)] && pq' == pq + [Entry(Priority(h, num, den, v, c), v)]
    ensures EntriesBound(h, num, den, dist', vis, pq') && OpenQueued(h, num, den, dist', vis, pq')
    ensures pq'[..|pq|] == pq
  {
    if dist[v].Fin? {
      PriorityMono(h, num, den, v, c, dist[v].n);
    }
    assert forall e :: e in pq' ==> e in pq || e == Entry(Priority(h, num, den, v, c), v);
    assert pq'[..|pq|] == pq;
  }

  /** One step of the relaxation loop: the edge `G[u][i] = (v, w)` lowers
      `dist[v]` to `d + w` and pushes `v` exactly when `v` is unsettled and
      `d + w < dist[v]`. */
  method RelaxOne(g: Graph, ghost s: nat, h: seq<nat>, num: nat, den: nat, u: nat, i: nat,
                  dist: seq<Dist>, vis: seq<bool>, pq: seq<Entry>, ghost wit: seq<seq<Hop>>)
    returns (dist': seq<Dist>, pq': seq<Entry>, ghost wit': seq<seq<Hop>>)
    requires RelaxedBut(g, dist, vis, u, i) && |h| == |g| && u < |g| && vis[u] && i < |g[u]|
    requires SettledFinite(dist, vis) && Witnessed(g, s, dist, wit)
    requires EntriesBound(h, num, den, dist, vis, pq) && OpenQueued(h, num, den, dist, vis, pq)
    ensures var v, c := g[u][i].to, dist[u].n + g[u][i].w;
      if !vis[v] && Below(c, dist[v]) then dist' == dist[v := Fin(c)] else dist' == dist
    ensures |dist'| == |dist| && dist'[u] == dist[u]
    ensures forall x :: 0 <= x < |g| ==> AtMost(dist'[x], dist[x]) && (vis[x] ==> dist'[x] == dist[x])
    ensures RelaxedBut(g, dist', vis, u, i + 1) && SettledFinite(dist', vis) && Witnessed(g, s, dist', wit')
    ensures SettledWithin(g, s, dist, vis, num, den) ==> SettledWithin(g, s, dist', vis, num, den)
    ensures EntriesBound(h, num, den, dist', vis, pq') && OpenQueued(h, num, den, dist', vis, pq')
    ensures |pq'| >= |pq| && pq'[..|pq|] == pq
  {
    var d := dist[u].n;
    var v, w := g[u][i].to, g[u][i].w;
    dist', pq', wit' := dist, pq, wit;
    if !vis[v] && Below(d + w, dist[v]) {
      dist', pq' := dist[v := Fin(d + w)], pq + [Entry(Priority(h, num, den, v, d + w), v)];
      wit' := wit[v := wit[u] + [Hop(u, i)]];
      RelaxLower(g, s, num, den, dist, vis, wit, u, i, dist', wit');
      PushLowered(h, num, den, dist, vis, pq, v, d + w, dist', pq');
    } else {
      RelaxKeep(g, dist, vis, u, i);
    }
  }

  /** The relaxation loop over `G[u]`: for each edge `(v, w)` with `v`
      unsettled and `d + w < dist[v]`, lower `dist[v]` and push `v` again.
      Each label ends as the least of its old value and `d + w` over the
      edges `(v, w)` of `u`. */
  method Expand(g: Graph, ghost s: nat, h: seq<nat>, num: nat, den: nat, u: nat,
                dist0: seq<Dist>, vis: seq<bool>, pq0: seq<Entry>, ghost wit0: seq<seq<Hop>>)
    returns (dist: seq<Dist>, pq: seq<Entry>, ghost wit: seq<seq<Hop>>)
    requires RelaxedBut(g, dist0, vis, u, 0) && |h| == |g| && u < |g| && vis[u]
    requires SettledFinite(dist0, vis) && Witnessed(g, s, dist0, wit0)
    requires EntriesBound(h, num, den, dist0, vis, pq0) && OpenQueued(h, num, den, dist0, vis, pq0)
    ensures |dist| == |g|
    ensures forall v :: 0 <= v < |g| ==> AtMost(dist[v], dist0[v])
    ensures forall v :: 0 <= v < |g| && vis[v] ==> dist[v] == dist0[v]
    ensures Relaxed(g, dist, vis) && SettledFinite(dist, vis) && Witnessed(g, s, dist, wit)
    ensures SettledWithin(g, s, dist0, vis, num, den) ==> SettledWithin(g, s, dist, vis, num, den)
    ensures EntriesBound(h, num, den, dist, vis, pq) && OpenQueued(h, num, den, dist, vis, pq)
  {
    dist, pq, wit := dist0, pq0, wit0;
    for i := 0 to |g[u]|
      invariant |dist| == |g| && dist[u] == dist0[u]
      invariant RelaxedBut(g, dist, vis, u, i) && SettledFinite(dist, vis) && Witnessed(g, s, dist, wit)
      invariant forall v :: 0 <= v < |g| ==> AtMost(dist[v], dist0[v])
      invariant forall v :: 0 <= v < |g| && vis[v] ==> dist[v] == dist0[v]
      invariant SettledWithin(g, s, dist0, vis, num, den) ==> SettledWithin(g, s, dist, vis, num, den)
      invariant EntriesBound(h, num, den, dist, vis, pq) && OpenQueued(h, num, den, dist, vis, pq)
    {
      dist, pq, wit := RelaxOne(g, s, h, num, den, u, i, dist, vis, pq, wit);
    }
  }

  /** Popping an entry of a settled vertex (`if (vis[u]) continue;`) keeps both
      frontier invariants. */
  lemma DiscardSettled(h: seq<nat>, num: nat, den: nat, dist: seq<Dist>, vis: seq<bool>,
                       pq: seq<Entry>, e: Entry, rest: seq<Entry>)
    requires |h| == |vis| == |dist|
    requires EntriesBound(h, num, den, dist, vis, pq) && OpenQueued(h, num, den, dist, vis, pq)
    requires e in pq && e.vertex < |vis| && vis[e.vertex]
    requires forall x :: x in rest ==> x in pq
    requires forall x :: x in pq && x != e ==> x in rest
    ensures EntriesBound(h, num, den, dist, vis, rest) && OpenQueued(h, num, den, dist, vis, rest)
  {
  }

  /** The least entry of an unsettled vertex carries exactly its current
      priority, which is the least priority on the frontier; settling that
      vertex keeps the invariants, and within factor `num / den` when the
      heuristic is consistent and `den <= num`. */
  lemma SettleLeast(g: Graph, s: nat, h: seq<nat>, num: nat, den: nat, dist: seq<Dist>, vis: seq<bool>,
                    pq: seq<Entry>, e: Entry, rest: seq<Entry>)
    requires WellFormed(g) && s < |g| && |h| == |g| && |vis| == |g| && |dist| == |g| && dist[s] == Fin(0)
    requires Relaxed(g, dist, vis) && SettledFinite(dist, vis)
    requires EntriesBound(h, num, den, dist, vis, pq) && OpenQueued(h, num, den, dist, vis, pq)
    requires e in pq && e.vertex < |vis| && !vis[e.vertex]
    requires forall x :: x in pq ==> EntryLe(e, x)
    requires forall x :: x in rest ==> x in pq
    requires forall x :: x in pq && x != e ==> x in rest
    ensures var u, vis' := e.vertex, vis[e.vertex := true];
      && dist[u].Fin? && e.key == Priority(h, num, den, u, dist[u].n)
      && RelaxedBut(g, dist, vis', u, 0) && SettledFinite(dist, vis')
      && (Consistent(g, h) && den <= num && SettledWithin(g, s, dist, vis, num, den) ==>
            SettledWithin(g, s, dist, vis', num, den))
      && EntriesBound(h, num, den, dist, vis', rest) && OpenQueued(h, num, den, dist, vis', rest)
  {
    var u := e.vertex;
    assert Entry(Priority(h, num, den, u, dist[u].n), u) in pq;
    if Consistent(g, h) && den <= num && SettledWithin(g, s, dist, vis, num, den) {
      forall x | 0 <= x < |g| && !vis[x] && dist[x].Fin?
        ensures Priority(h, num, den, u, dist[u].n) <= Priority(h, num, den, x, dist[x].n)
      {
        assert Entry(Priority(h, num, den, x, dist[x].n), x) in pq;
      }
      SettleWithin(g, s, h, num, den, dist, vis, u);
    }
    Settle(g, s, num, den, dist, vis, u);
  }

  /** The search loop shared by `dijkstra_lazy`, `dijkstra`, `astar_best` and
      `astar_weighted`: pop the least entry, discard it if its vertex is
      settled, otherwise settle it, stop if it is `t`, and relax its edges.
      `t` outside `0 .. n - 1` (the source's `-1`) never stops the search. */
  method Search(g: Graph, s: nat, t: int, h: seq<nat>, num: nat, den: nat)
    returns (dist: seq<Dist>, vis: seq<bool>, nodes: nat)
    requires WellFormed(g) && s < |g| && |h| == |g|
    ensures |dist| == |g| && |vis| == |g|
    ensures dist[s] == Fin(0)
    ensures Achieved(g, s, dist) && SettledFinite(dist, vis)
    ensures forall v :: 0 <= v < |g| && !Reachable(g, s, v) ==> dist[v].Inf?
    ensures Consistent(g, h) && den <= num ==> SettledWithin(g, s, dist, vis, num, den)
    ensures 0 <= t < |g| && Reachable(g, s, t) ==> vis[t]
    ensures !(0 <= t < |g| && vis[t]) ==> forall v :: 0 <= v < |g| && Reachable(g, s, v) ==> vis[v]
    ensures nodes == CountTrue(vis) && nodes <= |g|
  {
    var n := |g|;
    dist := seq(n, v => if v == s then Fin(0) else Inf);
    vis := seq(n, _ => false);
    ghost var wit: seq<seq<Hop>> := seq(n, _ => []);
    var pq := [Entry(Priority(h, num, den, s, 0), s)];
    nodes := 0;
    Start(g, s, num, den);
    ghost var good := Consistent(g, h) && den <= num;
    while |pq| > 0
      invariant |dist| == n && |vis| == n && dist[s] == Fin(0)
      invariant Witnessed(g, s, dist, wit) && SettledFinite(dist, vis) && Relaxed(g, dist, vis)
      invariant good ==> SettledWithin(g, s, dist, vis, num, den)
      invariant EntriesBound(h, num, den, dist, vis, pq) && OpenQueued(h, num, den, dist, vis, pq)
      invariant nodes == CountTrue(vis)
      decreases n - CountTrue(vis), |pq|
    {
      var e, rest := PopMin(pq);
      var u := e.vertex;
      if vis[u] {
        DiscardSettled(h, num, den, dist, vis, pq, e, rest);
        pq := rest;
        continue;
      }
      SettleLeast(g, s, h, num, den, dist, vis, pq, e, rest);
      pq := rest;
      CountTrueSet(vis, u);
      vis := vis[u := true];
      nodes := nodes + 1;
      if u == t {
        break;
      }
      dist, pq, wit := Expand(g, s, h, num, den, u, dist, vis, pq, wit);
    }
    WitnessedAchieved(g, s, dist, wit);
    forall v | 0 <= v < n && dist[v].Fin? ensures Reachable(g, s, v) {
      assert Reaches(g, s, v, dist[v].n);
    }
    if !(0 <= t < n && vis[t]) {
      AllReachableSettled(g, s, dist, vis);
    }
  }
}
