/**
  The stale-key variant of Dijkstra's algorithm shared by
  `Dijkstra_generated.cpp` and `run_dijk_generated` (dijk_generated.cpp):
  there is no `vis` array; a popped entry `(d, u)` is skipped exactly when
  `d > dist[u]`, every strict improvement records `prev[v] = u`, and every
  edge scanned from a non-skipped vertex is logged as the pair `(u, v)`.
  The loop always runs until the queue is empty.

  The proof keeps a ghost record of the settled vertices (`done`), the
  order in which they were settled, the key `lastKey` of the last one, and
  for each vertex its position `rank` in that order, which shows `prev`
  has no cycle.
 */
module StaleSearch {
  import opened Graphs
  import opened PriorityQueue
  import opened Settling
  import opened GraphIO

  /** The pairs `(u, v)` logged while scanning `G[u]`, in scan order. */
  function Scan(g: Graph, u: nat): seq<(nat, nat)>
    requires u < |g|
  {
    seq(|g[u]|, j requires 0 <= j < |g[u]| => (u, g[u][j].to))
  }

  lemma ScanPrefix(g: Graph, u: nat, i: nat)
    requires u < |g| && i < |g[u]|
    ensures Scan(g, u)[..i + 1] == Scan(g, u)[..i] + [(u, g[u][i].to)]
  {
  }

  /** The whole log after expanding the vertices of `order`, in that order. */
  function Log(g: Graph, order: seq<nat>): seq<(nat, nat)>
    requires forall k :: 0 <= k < |order| ==> order[k] < |g|
    decreases |order|
  {
    if |order| == 0 then [] else Log(g, order[..|order| - 1]) + Scan(g, order[|order| - 1])
  }

  /** Every queued entry names a labelled vertex and is never below its
      label nor below the key of the last settled vertex. */
  ghost predicate Entries(dist: seq<Dist>, pq: seq<Entry>, lastKey: nat) {
    forall e :: e in pq ==>
      e.vertex < |dist| && dist[e.vertex].Fin? && dist[e.vertex].n <= e.key && lastKey <= e.key
  }

  /** No entry is queued twice. */
  ghost predicate Single(pq: seq<Entry>) {
    forall e :: e in pq ==> multiset(pq)[e] == 1
  }

  /** A settled vertex has a label no larger than `lastKey` and no current
      entry left; an unsettled labelled vertex has its current entry queued. */
  ghost predicate Current(dist: seq<Dist>, done: seq<bool>, pq: seq<Entry>, lastKey: nat) {
    && |done| == |dist|
    && forall v :: 0 <= v < |dist| ==>
         && (done[v] ==> dist[v].Fin? && dist[v].n <= lastKey && Entry(dist[v].n, v) !in pq)
         && (!done[v] && dist[v].Fin? ==> Entry(dist[v].n, v) in pq)
  }

  /** Every edge out of a settled vertex has been relaxed, except the edges
      `i..` of the vertex `u` being expanded. */
  ghost predicate ScannedBut(g: Graph, dist: seq<Dist>, done: seq<bool>, u: int, i: nat) {
    && WellFormed(g) && |dist| == |g| && |done| == |g|
    && forall y, j :: 0 <= y < |g| && done[y] && 0 <= j < |g[y]| && (y != u || j < i) ==> Scanned(g, dist, y, j)
  }

  /** The edge `G[y][j]` has been relaxed: its end's label is at most `y`'s plus the weight. */
  ghost predicate Scanned(g: Graph, dist: seq<Dist>, y: nat, j: nat)
    requires WellFormed(g) && |dist| == |g| && y < |g| && j < |g[y]|
  {
    dist[y].Fin? && AtMost(dist[g[y][j].to], Fin(dist[y].n + g[y][j].w))
  }

  /** `prev[v]` is -1 exactly for `s` and the unlabelled vertices; otherwise
      it is a settled vertex whose edge number `via[v]` achieves `dist[v]`. */
  ghost predicate Tree(g: Graph, s: nat, dist: seq<Dist>, prev: seq<int>, done: seq<bool>, via: seq<nat>) {
    && |dist| == |g| && |prev| == |g| && |done| == |g| && |via| == |g|
    && forall v {:trigger prev[v]} :: 0 <= v < |g| ==>
         && (prev[v] == -1 <==> v == s || dist[v].Inf?)
         && (prev[v] != -1 ==>
               && 0 <= prev[v] < |g| && done[prev[v]]
               && via[v] < |g[prev[v]]| && g[prev[v]][via[v]].to == v
               && dist[prev[v]].Fin? && dist[v].Fin?
               && dist[v].n == dist[prev[v]].n + g[prev[v]][via[v]].w)
  }

  /** Some edge `u -> v` extends the label of `u` to exactly the label of `v`. */
  ghost predicate TreeEdge(g: Graph, dist: seq<Dist>, u: nat, v: nat)
    requires u < |g| && u < |dist| && v < |dist|
  {
    && dist[u].Fin? && dist[v].Fin?
    && exists j :: 0 <= j < |g[u]| && g[u][j].to == v && dist[v].n == dist[u].n + g[u][j].w
  }

  /** Settled vertices rank below the `m` already settled; the others rank `m`. */
  ghost predicate Ranks(done: seq<bool>, rank: seq<nat>, m: nat) {
    && |rank| == |done|
    && forall v :: 0 <= v < |done| ==> (done[v] ==> rank[v] < m) && (!done[v] ==> rank[v] == m)
  }

  /** `order` lists the settled vertices once each, by non-decreasing label,
      and `rank` is each one's position in it. */
  ghost predicate Ordered(dist: seq<Dist>, done: seq<bool>, order: seq<nat>, rank: seq<nat>) {
    && |done| == |dist|
    && Ranks(done, rank, |order|)
    && (forall k :: 0 <= k < |order| ==> order[k] < |done| && done[order[k]] && rank[order[k]] == k)
    && (forall v :: 0 <= v < |done| && done[v] ==> order[rank[v]] == v)
    && (forall a, b :: 0 <= a < b < |order| ==> AtMost(dist[order[a]], dist[order[b]]))
  }

  lemma LogAppend(g: Graph, order: seq<nat>, u: nat)
    requires forall k :: 0 <= k < |order| ==> order[k] < |g|
    requires u < |g|
    ensures Log(g, order + [u]) == Log(g, order) + Scan(g, u)
  {
    assert (order + [u])[..|order|] == order;
  }

  /** Skipping a stale entry (`if (d > dist[u]) continue;`) keeps the queue
      invariants. */
  lemma DiscardStale(dist: seq<Dist>, done: seq<bool>, pq: seq<Entry>, lastKey: nat, e: Entry, rest: seq<Entry>)
    requires Entries(dist, pq, lastKey) && Single(pq) && Current(dist, done, pq, lastKey)
    requires e in pq && e.vertex < |dist| && dist[e.vertex].Fin? && e.key > dist[e.vertex].n
    requires multiset(rest) == multiset(pq) - multiset{e}
    ensures Entries(dist, rest, lastKey) && Single(rest) && Current(dist, done, rest, lastKey)
  {
    forall x | x in rest ensures x in pq && multiset(rest)[x] == 1 {
      assert x in multiset(rest);
    }
    forall v | 0 <= v < |dist| && !done[v] && dist[v].Fin? ensures Entry(dist[v].n, v) in rest {
      assert Entry(dist[v].n, v) in multiset(pq) - multiset{e};
    }
  }

  /** Popping a least entry that is not stale settles its vertex: the entry
      carries the vertex's label, the vertex was not settled before, and every
      invariant holds with the vertex appended to the settle order. */
  lemma SettleCurrent(g: Graph, s: nat, dist: seq<Dist>, prev: seq<int>, via: seq<nat>,
                      done: seq<bool>, order: seq<nat>, rank: seq<nat>, pq: seq<Entry>, lastKey: nat,
                      e: Entry, rest: seq<Entry>, done': seq<bool>, order': seq<nat>, rank': seq<nat>)
    requires ScannedBut(g, dist, done, -1, 0) && Tree(g, s, dist, prev, done, via)
    requires Entries(dist, pq, lastKey) && Single(pq) && Current(dist, done, pq, lastKey)
    requires Ordered(dist, done, order, rank) && PrevRanked(prev, rank)
    requires e in pq && forall x :: x in pq ==> EntryLe(e, x)
    requires multiset(rest) == multiset(pq) - multiset{e}
    requires e.vertex < |dist| && !(dist[e.vertex].Fin? && e.key > dist[e.vertex].n)
    requires done' == done[e.vertex := true] && order' == order + [e.vertex]
    requires rank' == seq(|g|, x requires 0 <= x < |g| => if done'[x] then rank[x] else |order'|)
    ensures dist[e.vertex] == Fin(e.key) && !done[e.vertex]
    ensures ScannedBut(g, dist, done', e.vertex, 0) && Tree(g, s, dist, prev, done', via)
    ensures Entries(dist, rest, e.key) && Single(rest) && Current(dist, done', rest, e.key)
    ensures Ordered(dist, done', order', rank') && PrevRanked(prev, rank')
  {
    var u := e.vertex;
    assert e == Entry(dist[u].n, u);
    forall x | x in rest ensures x in pq && multiset(rest)[x] == 1 && x != e {
      assert x in multiset(rest);
    }
    forall v | 0 <= v < |dist| && !done'[v] && dist[v].Fin? ensures Entry(dist[v].n, v) in rest {
      assert Entry(dist[v].n, v) in multiset(pq) - multiset{e};
    }
    forall v | 0 <= v < |dist| && done'[v] ensures Entry(dist[v].n, v) !in rest {
      if v == u {
        assert multiset(rest)[e] == 0;
      }
    }
    forall k | 0 <= k < |order'| ensures order'[k] < |done'| && done'[order'[k]] && rank'[order'[k]] == k {
      if k < |order| {
        assert order'[k] == order[k];
      }
    }
  }

  /** The facts every relaxation step starts from: `u` is settled with label
      `lastKey` and its edges `..i` have been relaxed. */
  ghost predicate Expanding(g: Graph, s: nat, u: nat, i: nat, dist: seq<Dist>, prev: seq<int>,
                            pq: seq<Entry>, done: seq<bool>, via: seq<nat>, rank: seq<nat>, m: nat,
                            lastKey: nat, wit: seq<seq<Hop>>)
  {
    && ScannedBut(g, dist, done, u, i) && Tree(g, s, dist, prev, done, via)
    && u < |g| && done[u] && dist[u] == Fin(lastKey) && s < |g| && dist[s] == Fin(0)
    && Entries(dist, pq, lastKey) && Single(pq) && Current(dist, done, pq, lastKey)
    && Ranks(done, rank, m) && PrevRanked(prev, rank) && Witnessed(g, s, dist, wit)
  }

  /** An edge that does not improve its target's label is relaxed as it stands. */
  lemma StaleKeep(g: Graph, s: nat, u: nat, i: nat, dist: seq<Dist>, prev: seq<int>,
                  pq: seq<Entry>, done: seq<bool>, via: seq<nat>, rank: seq<nat>, m: nat,
                  lastKey: nat, wit: seq<seq<Hop>>)
    requires Expanding(g, s, u, i, dist, prev, pq, done, via, rank, m, lastKey, wit)
    requires i < |g[u]| && !Below(lastKey + g[u][i].w, dist[g[u][i].to])
    ensures Expanding(g, s, u, i + 1, dist, prev, pq, done, via, rank, m, lastKey, wit)
  {
  }

  /** An improving edge never leads to a settled vertex: a settled label is
      at most `lastKey`, which is at most `dist[u] + w`. */
  lemma LowerUnsettled(dist: seq<Dist>, done: seq<bool>, pq: seq<Entry>, lastKey: nat, v: nat, c: nat)
    requires Current(dist, done, pq, lastKey) && v < |dist| && lastKey <= c && Below(c, dist[v])
    ensures !done[v]
  {
    CurrentAt(dist, done, pq, lastKey, v);
  }

  lemma CurrentAt(dist: seq<Dist>, done: seq<bool>, pq: seq<Entry>, lastKey: nat, v: nat)
    requires Current(dist, done, pq, lastKey) && v < |dist|
    ensures done[v] ==> dist[v].Fin? && dist[v].n <= lastKey
  {
  }

  lemma LowerQueue(dist: seq<Dist>, done: seq<bool>, pq: seq<Entry>, lastKey: nat, v: nat, c: nat,
                   dist': seq<Dist>, pq': seq<Entry>)
    requires Entries(dist, pq, lastKey) && Single(pq) && Current(dist, done, pq, lastKey)
    requires v < |dist| && !done[v] && lastKey <= c && Below(c, dist[v])
    requires dist' == dist[v := Fin(c)] && pq' == pq + [Entry(c, v)]
    ensures Entries(dist', pq', lastKey) && Single(pq') && Current(dist', done, pq', lastKey)
  {
    assert Entry(c, v) !in pq;
    assert multiset(pq') == multiset(pq) + multiset{Entry(c, v)};
    forall x | x in pq' ensures multiset(pq')[x] == 1 {
      if x != Entry(c, v) {
        assert x in pq;
      }
    }
  }

  lemma LowerScanned(g: Graph, dist: seq<Dist>, done: seq<bool>, u: nat, i: nat, dist': seq<Dist>)
    requires ScannedBut(g, dist, done, u, i) && u < |g| && i < |g[u]| && dist[u].Fin?
    requires var v, c := g[u][i].to, dist[u].n + g[u][i].w;
      !done[v] && Below(c, dist[v]) && dist' == dist[v := Fin(c)]
    ensures ScannedBut(g, dist', done, u, i + 1)
  {
    forall y, j | 0 <= y < |g| && done[y] && 0 <= j < |g[y]| && (y != u || j < i + 1)
      ensures Scanned(g, dist', y, j)
    {
      LowerScannedEdge(g, dist, done, u, i, dist', y, j);
    }
  }

  /** One scanned edge stays scanned when an unsettled label drops, and the
      edge just relaxed joins them. */
  lemma LowerScannedEdge(g: Graph, dist: seq<Dist>, done: seq<bool>, u: nat, i: nat, dist': seq<Dist>, y: nat, j: nat)
    requires ScannedBut(g, dist, done, u, i) && u < |g| && i < |g[u]| && dist[u].Fin?
    requires var v, c := g[u][i].to, dist[u].n + g[u][i].w;
      !done[v] && Below(c, dist[v]) && dist' == dist[v := Fin(c)]
    requires y < |g| && done[y] && j < |g[y]| && (y != u || j < i + 1)
    ensures Scanned(g, dist', y, j)
  {
    var v, c := g[u][i].to, dist[u].n + g[u][i].w;
    assert y != v && dist'[y] == dist[y];
    var x := g[y][j].to;
    assert AtMost(dist'[x], dist[x]);
    if y != u || j < i {
      assert Scanned(g, dist, y, j);
    } else {
      assert x == v && dist'[x] == Fin(c);
    }
  }

  lemma LowerTree(g: Graph, s: nat, dist: seq<Dist>, prev: seq<int>, done: seq<bool>, via: seq<nat>,
                  u: nat, i: nat, dist': seq<Dist>, prev': seq<int>, via': seq<nat>)
    requires Tree(g, s, dist, prev, done, via) && WellFormed(g) && u < |g| && i < |g[u]| && done[u]
    requires s < |g| && dist[u].Fin? && dist[s] == Fin(0)
    requires var v, c := g[u][i].to, dist[u].n + g[u][i].w;
      && !done[v] && Below(c, dist[v])
      && dist' == dist[v := Fin(c)] && prev' == prev[v := u] && via' == via[v := i]
    ensures Tree(g, s, dist', prev', done, via')
  {
  }

  lemma LowerWitnessed(g: Graph, s: nat, dist: seq<Dist>, wit: seq<seq<Hop>>, u: nat, i: nat,
                       dist': seq<Dist>, wit': seq<seq<Hop>>)
    requires Witnessed(g, s, dist, wit) && u < |dist| && u < |g| && i < |g[u]| && dist[u].Fin?
    requires var v, c := g[u][i].to, dist[u].n + g[u][i].w;
      v < |dist| && dist' == dist[v := Fin(c)] && wit' == wit[v := wit[u] + [Hop(u, i)]]
    ensures Witnessed(g, s, dist', wit')
  {
    WalkExtend(g, s, wit[u], u, i);
  }

  /** Lowering the target of an improving edge, recording `u` as its
      predecessor and queueing the new entry keeps every invariant. */
  lemma StaleLower(g: Graph, s: nat, u: nat, i: nat, dist: seq<Dist>, prev: seq<int>,
                   pq: seq<Entry>, done: seq<bool>, via: seq<nat>, rank: seq<nat>, m: nat,
                   lastKey: nat, wit: seq<seq<Hop>>,
                   dist': seq<Dist>, prev': seq<int>, pq': seq<Entry>, via': seq<nat>, wit': seq<seq<Hop>>)
    requires Expanding(g, s, u, i, dist, prev, pq, done, via, rank, m, lastKey, wit)
    requires i < |g[u]|
    requires var v, c := g[u][i].to, lastKey + g[u][i].w;
      && Below(c, dist[v])
      && dist' == dist[v := Fin(c)] && prev' == prev[v := u] && pq' == pq + [Entry(c, v)]
      && via' == via[v := i] && wit' == wit[v := wit[u] + [Hop(u, i)]]
    ensures !done[g[u][i].to]
    ensures Expanding(g, s, u, i + 1, dist', prev', pq', done, via', rank, m, lastKey, wit')
  {
    var v, c := g[u][i].to, lastKey + g[u][i].w;
    LowerUnsettled(dist, done, pq, lastKey, v, c);
    LowerQueue(dist, done, pq, lastKey, v, c, dist', pq');
    LowerScanned(g, dist, done, u, i, dist');
    LowerTree(g, s, dist, prev, done, via, u, i, dist', prev', via');
    LowerWitnessed(g, s, dist, wit, u, i, dist', wit');
  }

  /** Relaxing the edge `G[u][i] = (v, w)`: when `dist[u] + w < dist[v]`,
      lower `dist[v]`, record `prev[v] = u` and push `(dist[v], v)`; in every
      case log `(u, v)`. A settled `v` is never lowered, since its label is
      at most `dist[u]`. */
  method RelaxStale(g: Graph, ghost s: nat, u: nat, i: nat, dist: seq<Dist>, prev: seq<int>,
                    pq: seq<Entry>, explored: seq<(nat, nat)>, ghost done: seq<bool>, ghost via: seq<nat>,
                    ghost rank: seq<nat>, ghost m: nat, ghost lastKey: nat, ghost wit: seq<seq<Hop>>)
    returns (dist': seq<Dist>, prev': seq<int>, pq': seq<Entry>, explored': seq<(nat, nat)>,
             ghost via': seq<nat>, ghost wit': seq<seq<Hop>>)
    requires Expanding(g, s, u, i, dist, prev, pq, done, via, rank, m, lastKey, wit) && i < |g[u]|
    ensures var v, c := g[u][i].to, lastKey + g[u][i].w;
      && (Below(c, dist[v]) ==> !done[v] && dist' == dist[v := Fin(c)] && prev' == prev[v := u] && pq' == pq + [Entry(c, v)])
      && (!Below(c, dist[v]) ==> dist' == dist && prev' == prev && pq' == pq)
      && explored' == explored + [(u, v)]
    ensures forall x :: 0 <= x < |g| && done[x] ==> dist'[x] == dist[x]
    ensures Expanding(g, s, u, i + 1, dist', prev', pq', done, via', rank, m, lastKey, wit')
  {
    var v, w := g[u][i].to, g[u][i].w;
    var c := dist[u].n + w;
    if dist[v].Inf? || dist[v].n > c {
      dist', prev', pq' := dist[v := Fin(c)], prev[v := u], pq + [Entry(c, v)];
      via', wit' := via[v := i], wit[v := wit[u] + [Hop(u, i)]];
      StaleLower(g, s, u, i, dist, prev, pq, done, via, rank, m, lastKey, wit, dist', prev', pq', via', wit');
    } else {
      dist', prev', pq', via', wit' := dist, prev, pq, via, wit;
      StaleKeep(g, s, u, i, dist, prev, pq, done, via, rank, m, lastKey, wit);
    }
    explored' := explored + [(u, v)];
  }

  /** The scan of `G[u]` after settling `u`: every edge relaxed and logged. */
  method ExpandStale(g: Graph, ghost s: nat, u: nat, dist0: seq<Dist>, prev0: seq<int>,
                     pq0: seq<Entry>, explored0: seq<(nat, nat)>, ghost done: seq<bool>, ghost via0: seq<nat>,
                     ghost rank: seq<nat>, ghost m: nat, ghost lastKey: nat, ghost wit0: seq<seq<Hop>>)
    returns (dist: seq<Dist>, prev: seq<int>, pq: seq<Entry>, explored: seq<(nat, nat)>,
             ghost via: seq<nat>, ghost wit: seq<seq<Hop>>)
    requires Expanding(g, s, u, 0, dist0, prev0, pq0, done, via0, rank, m, lastKey, wit0)
    ensures explored == explored0 + Scan(g, u)
    ensures |dist| == |g| && forall x :: 0 <= x < |g| && done[x] ==> dist[x] == dist0[x]
    ensures Expanding(g, s, u, |g[u]|, dist, prev, pq, done, via, rank, m, lastKey, wit)
  {
    dist, prev, pq, explored, via, wit := dist0, prev0, pq0, explored0, via0, wit0;
    for i := 0 to |g[u]|
      invariant Expanding(g, s, u, i, dist, prev, pq, done, via, rank, m, lastKey, wit)
      invariant forall x :: 0 <= x < |g| && done[x] ==> dist[x] == dist0[x]
      invariant explored == explored0 + Scan(g, u)[..i]
    {
      dist, prev, pq, explored, via, wit :=
        RelaxStale(g, s, u, i, dist, prev, pq, explored, done, via, rank, m, lastKey, wit);
      ScanPrefix(g, u, i);
    }
    assert Scan(g, u)[..|g[u]|] == Scan(g, u);
  }

  /** When the queue runs dry, a feasible, witnessed labelling that is 0 at
      `s` is exactly the shortest-path distance. */
  lemma ExhaustedExact(g: Graph, s: nat, dist: seq<Dist>, wit: seq<seq<Hop>>)
    requires Feasible(g, dist) && s < |g| && dist[s] == Fin(0) && Witnessed(g, s, dist, wit)
    ensures forall v :: 0 <= v < |g| ==> dist[v] == Delta(g, s, v)
  {
    forall v | 0 <= v < |g| ensures dist[v] == Delta(g, s, v) {
      if dist[v].Fin? {
        assert IsWalk(g, s, wit[v], v);
      }
      if Reachable(g, s, v) {
        var q :| IsWalk(g, s, q, v);
        FeasibleBound(g, dist, s, q, v);
        forall p | IsWalk(g, s, p, v) ensures dist[v].n <= Cost(g, p) {
          FeasibleBound(g, dist, s, p, v);
        }
      }
      ShortestIsDelta(g, s, v, dist[v]);
    }
  }

  /** Everything the search loop keeps true between iterations. */
  ghost predicate Invariant(g: Graph, s: nat, dist: seq<Dist>, prev: seq<int>, pq: seq<Entry>,
                            explored: seq<(nat, nat)>, done: seq<bool>, via: seq<nat>, order: seq<nat>,
                            rank: seq<nat>, lastKey: nat, wit: seq<seq<Hop>>)
  {
    && |dist| == |g| && s < |g| && dist[s] == Fin(0)
    && ScannedBut(g, dist, done, -1, 0) && Tree(g, s, dist, prev, done, via)
    && Entries(dist, pq, lastKey) && Single(pq) && Current(dist, done, pq, lastKey)
    && Ordered(dist, done, order, rank) && PrevRanked(prev, rank) && Witnessed(g, s, dist, wit)
    && (forall k :: 0 <= k < |order| ==> order[k] < |g|)
    && explored == Log(g, order)
  }

  /** A non-stale pop: settle `u` and scan its edges. One more vertex is settled. */
  method SettleScan(g: Graph, ghost s: nat, e: Entry, rest: seq<Entry>, dist: seq<Dist>, prev: seq<int>,
                    pq: seq<Entry>, explored: seq<(nat, nat)>, ghost done: seq<bool>, ghost via: seq<nat>,
                    ghost order: seq<nat>, ghost rank: seq<nat>, ghost lastKey: nat, ghost wit: seq<seq<Hop>>)
    returns (dist': seq<Dist>, prev': seq<int>, pq': seq<Entry>, explored': seq<(nat, nat)>,
             ghost done': seq<bool>, ghost via': seq<nat>, ghost order': seq<nat>, ghost rank': seq<nat>,
             ghost wit': seq<seq<Hop>>)
    requires Invariant(g, s, dist, prev, pq, explored, done, via, order, rank, lastKey, wit)
    requires e in pq && forall x :: x in pq ==> EntryLe(e, x)
    requires multiset(rest) == multiset(pq) - multiset{e}
    requires e.vertex < |dist| && !(dist[e.vertex].Fin? && e.key > dist[e.vertex].n)
    ensures Invariant(g, s, dist', prev', pq', explored', done', via', order', rank', e.key, wit')
    ensures CountTrue(done') == CountTrue(done) + 1
    ensures explored' == explored + Scan(g, e.vertex)
  {
    var u := e.vertex;
    var n := |g|;
    done', order' := done[u := true], order + [u];
    rank' := seq(n, x requires 0 <= x < n => if done'[x] then rank[x] else |order'|);
    SettleCurrent(g, s, dist, prev, via, done, order, rank, pq, lastKey, e, rest, done', order', rank');
    CountTrueSet(done, u);
    LogAppend(g, order, u);
    dist', prev', pq', explored', via', wit' :=
      ExpandStale(g, s, u, dist, prev, rest, explored, done', via, rank', |order'|, e.key, wit);
    Reassemble(g, s, u, dist, dist', prev', pq', explored', done', via', order', rank', e.key, wit');
  }

  /** After the scan of `u` the loop invariant holds again: the settled
      labels, and so the settle order's sortedness, are unchanged. */
  lemma Reassemble(g: Graph, s: nat, u: nat, dist0: seq<Dist>, dist: seq<Dist>, prev: seq<int>,
                   pq: seq<Entry>, explored: seq<(nat, nat)>, done: seq<bool>, via: seq<nat>,
                   order: seq<nat>, rank: seq<nat>, lastKey: nat, wit: seq<seq<Hop>>)
    requires u < |g| && Expanding(g, s, u, |g[u]|, dist, prev, pq, done, via, rank, |order|, lastKey, wit)
    requires |dist0| == |g| && Ordered(dist0, done, order, rank)
    requires forall x :: 0 <= x < |g| && done[x] ==> dist[x] == dist0[x]
    requires forall k :: 0 <= k < |order| ==> order[k] < |g|
    requires explored == Log(g, order)
    ensures Invariant(g, s, dist, prev, pq, explored, done, via, order, rank, lastKey, wit)
  {
    forall a, b | 0 <= a < b < |order| ensures AtMost(dist[order[a]], dist[order[b]]) {
      assert AtMost(dist0[order[a]], dist0[order[b]]);
    }
  }

  /** One iteration of the search loop: pop the least entry; skip it if it
      is stale, otherwise settle its vertex and scan its edges. Either one
      more vertex is settled, or nothing is settled and the queue shrinks. */
  method Step(g: Graph, ghost s: nat, dist: seq<Dist>, prev: seq<int>, pq: seq<Entry>,
              explored: seq<(nat, nat)>, ghost done: seq<bool>, ghost via: seq<nat>,
              ghost order: seq<nat>, ghost rank: seq<nat>, ghost lastKey: nat, ghost wit: seq<seq<Hop>>)
    returns (dist': seq<Dist>, prev': seq<int>, pq': seq<Entry>, explored': seq<(nat, nat)>,
             ghost done': seq<bool>, ghost via': seq<nat>, ghost order': seq<nat>, ghost rank': seq<nat>,
             ghost lastKey': nat, ghost wit': seq<seq<Hop>>)
    requires Invariant(g, s, dist, prev, pq, explored, done, via, order, rank, lastKey, wit) && |pq| > 0
    ensures Invariant(g, s, dist', prev', pq', explored', done', via', order', rank', lastKey', wit')
    ensures |done'| == |done|
    ensures CountTrue(done') == CountTrue(done) + 1 || (done' == done && |pq'| < |pq|)
    ensures || (dist' == dist && prev' == prev && explored' == explored && |pq'| == |pq| - 1)
            || exists u :: 0 <= u < |g| && explored' == explored + Scan(g, u)
    ensures forall e :: e in pq && (forall x :: x in pq ==> EntryLe(e, x)) ==>
      if e.vertex < |dist| && dist[e.vertex].Fin? && e.key > dist[e.vertex].n then
        && done' == done && dist' == dist && prev' == prev && explored' == explored
        && multiset(pq') == multiset(pq) - multiset{e}
      else
        && CountTrue(done') == CountTrue(done) + 1
        && explored' == explored + Scan(g, e.vertex)
  {
    var e, rest := PopMin(pq);
    var d, u := e.key, e.vertex;
    if dist[u].Fin? && d > dist[u].n {
      SkipStale(g, s, dist, prev, pq, explored, done, via, order, rank, lastKey, wit, e, rest);
      dist', prev', pq', explored', done', via', order', rank', lastKey', wit' :=
        dist, prev, rest, explored, done, via, order, rank, lastKey, wit;
    } else {
      dist', prev', pq', explored', done', via', order', rank', wit' :=
        SettleScan(g, s, e, rest, dist, prev, pq, explored, done, via, order, rank, lastKey, wit);
      lastKey' := d;
    }
    forall e' | e' in pq && (forall x :: x in pq ==> EntryLe(e', x)) ensures e' == e {
      assert EntryLe(e', e) && EntryLe(e, e');
    }
  }

  /** The search loop: pop the least entry, skip it if stale, otherwise
      settle its vertex and scan its edges; run until the queue is empty.
      Returns the distances, the predecessor array, the log of scanned
      pairs, and (ghost) the settle order and the ranks that show `prev`
      acyclic. */
  method Search(g: Graph, s: nat)
    returns (dist: seq<Dist>, prev: seq<int>, explored: seq<(nat, nat)>,
             ghost order: seq<nat>, ghost rank: seq<nat>)
    requires WellFormed(g) && s < |g|
    ensures |dist| == |g| && |prev| == |g|
    ensures forall v :: 0 <= v < |g| ==> dist[v] == Delta(g, s, v)
    ensures forall v :: 0 <= v < |g| ==> (prev[v] == -1 <==> v == s || dist[v].Inf?)
    ensures forall v :: 0 <= v < |g| && prev[v] != -1 ==>
      0 <= prev[v] < |g| && TreeEdge(g, dist, prev[v], v)
    ensures PrevRanked(prev, rank)
    ensures forall k :: 0 <= k < |order| ==> order[k] < |g| && dist[order[k]].Fin?
    ensures forall v :: 0 <= v < |g| && dist[v].Fin? ==> v in order
    ensures forall a, b :: 0 <= a < b < |order| ==> order[a] != order[b] && AtMost(dist[order[a]], dist[order[b]])
    ensures explored == Log(g, order)
  {
    var n := |g|;
    dist := seq(n, v => if v == s then Fin(0) else Inf);
    var pq := [Entry(0, s)];
    prev := seq(n, _ => -1);
    explored := [];
    ghost var done := seq(n, _ => false);
    ghost var via: seq<nat> := seq(n, _ => 0);
    ghost var wit: seq<seq<Hop>> := seq(n, _ => []);
    ghost var lastKey: nat := 0;
    order, rank := [], seq(n, _ => 0);
    InitInvariant(g, s, dist, prev, pq, done, via, rank, wit);
    while |pq| > 0
      invariant Invariant(g, s, dist, prev, pq, explored, done, via, order, rank, lastKey, wit)
      decreases n - CountTrue(done), |pq|
    {
      dist, prev, pq, explored, done, via, order, rank, lastKey, wit :=
        Step(g, s, dist, prev, pq, explored, done, via, order, rank, lastKey, wit);
    }
    ExhaustedResult(g, s, dist, prev, explored, done, via, order, rank, lastKey, wit);
  }

  /** The facts `Search` reports, read off the invariants once the queue is empty. */
  lemma ExhaustedResult(g: Graph, s: nat, dist: seq<Dist>, prev: seq<int>, explored: seq<(nat, nat)>,
                        done: seq<bool>, via: seq<nat>, order: seq<nat>, rank: seq<nat>, lastKey: nat,
                        wit: seq<seq<Hop>>)
    requires Invariant(g, s, dist, prev, [], explored, done, via, order, rank, lastKey, wit)
    ensures |dist| == |g| && |prev| == |g|
    ensures forall v :: 0 <= v < |g| ==> dist[v] == Delta(g, s, v)
    ensures forall v :: 0 <= v < |g| ==> (prev[v] == -1 <==> v == s || dist[v].Inf?)
    ensures forall v :: 0 <= v < |g| && prev[v] != -1 ==>
      0 <= prev[v] < |g| && TreeEdge(g, dist, prev[v], v)
    ensures PrevRanked(prev, rank)
    ensures forall k :: 0 <= k < |order| ==> order[k] < |g| && dist[order[k]].Fin?
    ensures forall v :: 0 <= v < |g| && dist[v].Fin? ==> v in order
    ensures forall a, b :: 0 <= a < b < |order| ==> order[a] != order[b] && AtMost(dist[order[a]], dist[order[b]])
    ensures explored == Log(g, order)
  {
    ScannedFeasible(g, dist, done);
    ExhaustedExact(g, s, dist, wit);
    forall v | 0 <= v < |g| && prev[v] != -1 ensures TreeEdge(g, dist, prev[v], v) {
      var j := via[v];
    }
    forall v | 0 <= v < |g| && dist[v].Fin? ensures v in order {
      assert order[rank[v]] == v;
    }
    forall a, b | 0 <= a < b < |order| ensures order[a] != order[b] {
      assert rank[order[a]] == a && rank[order[b]] == b;
    }
  }

  /** Once every labelled vertex is settled and scanned, the labels are a feasible potential. */
  lemma ScannedFeasible(g: Graph, dist: seq<Dist>, done: seq<bool>)
    requires ScannedBut(g, dist, done, -1, 0)
    requires forall v :: 0 <= v < |g| && dist[v].Fin? ==> done[v]
    ensures Feasible(g, dist)
  {
    forall u, i | 0 <= u < |g| && 0 <= i < |g[u]| && dist[u].Fin?
      ensures g[u][i].to < |g| && AtMost(dist[g[u][i].to], Fin(dist[u].n + g[u][i].w))
    {
      assert Scanned(g, dist, u, i);
    }
  }

  /** The state before the first pop: only `s` is labelled and queued. */
  lemma InitInvariant(g: Graph, s: nat, dist: seq<Dist>, prev: seq<int>, pq: seq<Entry>,
                      done: seq<bool>, via: seq<nat>, rank: seq<nat>, wit: seq<seq<Hop>>)
    requires WellFormed(g) && s < |g|
    requires dist == seq(|g|, v => if v == s then Fin(0) else Inf) && pq == [Entry(0, s)]
    requires prev == seq(|g|, _ => -1) && done == seq(|g|, _ => false)
    requires via == seq(|g|, _ => 0) && rank == seq(|g|, _ => 0) && wit == seq(|g|, _ => [])
    ensures Invariant(g, s, dist, prev, pq, [], done, via, [], rank, 0, wit)
  {
  }

  /** Skipping a stale entry keeps the loop invariant. */
  lemma SkipStale(g: Graph, s: nat, dist: seq<Dist>, prev: seq<int>, pq: seq<Entry>,
                  explored: seq<(nat, nat)>, done: seq<bool>, via: seq<nat>, order: seq<nat>,
                  rank: seq<nat>, lastKey: nat, wit: seq<seq<Hop>>, e: Entry, rest: seq<Entry>)
    requires Invariant(g, s, dist, prev, pq, explored, done, via, order, rank, lastKey, wit)
    requires e in pq && multiset(rest) == multiset(pq) - multiset{e}
    requires e.vertex < |dist| && dist[e.vertex].Fin? && e.key > dist[e.vertex].n
    ensures Invariant(g, s, dist, prev, rest, explored, done, via, order, rank, lastKey, wit)
  {
    DiscardStale(dist, done, pq, lastKey, e, rest);
  }

  /** A log holds exactly the pairs `(u, v)` for an edge `u -> v` of a vertex `u` of the order. */
  lemma {:induction false} LogMembers(g: Graph, order: seq<nat>)
    requires forall k :: 0 <= k < |order| ==> order[k] < |g|
    ensures forall p :: p in Log(g, order) <==>
      exists k, j :: 0 <= k < |order| && 0 <= j < |g[order[k]]| && p == (order[k], g[order[k]][j].to)
    decreases |order|
  {
    if |order| > 0 {
      var front, u := order[..|order| - 1], order[|order| - 1];
      LogMembers(g, front);
      forall p ensures p in Log(g, order) <==>
        exists k, j :: 0 <= k < |order| && 0 <= j < |g[order[k]]| && p == (order[k], g[order[k]][j].to)
      {
        if p in Log(g, front) {
          var k, j :| 0 <= k < |front| && 0 <= j < |g[front[k]]| && p == (front[k], g[front[k]][j].to);
          assert order[k] == front[k];
        } else if p in Scan(g, u) {
          var j :| 0 <= j < |g[u]| && Scan(g, u)[j] == p;
          assert order[|order| - 1] == u;
        }
        if exists k, j :: 0 <= k < |order| && 0 <= j < |g[order[k]]| && p == (order[k], g[order[k]][j].to) {
          var k, j :| 0 <= k < |order| && 0 <= j < |g[order[k]]| && p == (order[k], g[order[k]][j].to);
          if k < |front| {
            assert front[k] == order[k];
          } else {
            assert Scan(g, u)[j] == p;
          }
        }
      }
    }
  }

  /** Following `prev` back from a vertex with a finite label ends at `s`,
      and every step of the way is an edge that achieves the next label:
      the reconstructed path is a shortest-path-tree path from `s`. */
  lemma PathFromSource(g: Graph, s: nat, dist: seq<Dist>, prev: seq<int>, path: seq<nat>)
    requires |dist| == |g| && |prev| == |g|
    requires forall v :: 0 <= v < |g| ==> (prev[v] == -1 <==> v == s || dist[v].Inf?)
    requires forall v :: 0 <= v < |g| && prev[v] != -1 ==> 0 <= prev[v] < |g| && TreeEdge(g, dist, prev[v], v)
    requires |path| >= 1 && forall i :: 0 <= i < |path| ==> path[i] < |g|
    requires forall i :: 0 <= i < |path| - 1 ==> path[i] == prev[path[i + 1]]
    requires prev[path[0]] == -1 && dist[path[|path| - 1]].Fin?
    ensures path[0] == s
    ensures forall i :: 0 <= i < |path| - 1 ==> TreeEdge(g, dist, path[i], path[i + 1])
  {
    if |path| > 1 {
      assert prev[path[1]] != -1;
      assert TreeEdge(g, dist, prev[path[1]], path[1]);
    }
    forall i | 0 <= i < |path| - 1 ensures TreeEdge(g, dist, path[i], path[i + 1]) {
      var v := path[i + 1];
      assert v < |g| && prev[v] == path[i] && prev[v] != -1;
      assert TreeEdge(g, dist, prev[v], v);
    }
  }
}
