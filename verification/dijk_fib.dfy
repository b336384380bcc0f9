/**
  dijkstra/dijk_Fib.cpp: `dijkstra_fib`, Dijkstra's algorithm over a
  Fibonacci heap with handles. `ref[v]` records whether `v` was ever given a
  handle; it is never reset, so it marks the vertices that are queued or
  settled. A vertex is pushed only while it has no handle and updated in
  place afterwards, so the queue holds exactly the unsettled labelled
  vertices (`Open`) and the `vis[u]` skip never fires.
 */
module DijkFib {
  import opened Graphs
  import opened PriorityQueue
  import opened KeyedQueue
  import opened Settling
  import DijkDecKey

  /** A vertex has a handle exactly when it carries a label: labels are only
      ever lowered, and every first label comes with a push. Together with
      `pq == Open(dist, vis)` this says a handle marks a queued or settled
      vertex. */
  predicate Handles(ref: seq<bool>, dist: seq<Dist>) {
    |ref| == |dist| && forall v :: 0 <= v < |ref| ==> (ref[v] <==> dist[v].Fin?)
  }

  /** The top of a queue holding `Open(dist, vis)` is an unsettled vertex whose
      key is its label, and no unsettled label is smaller. */
  lemma TopUnsettled(pq: Queue, dist: seq<Dist>, vis: seq<bool>)
    requires |pq| > 0 && |dist| == |vis| && pq == Open(dist, vis)
    ensures var top := Top(pq);
      && top.vertex < |vis| && !vis[top.vertex] && dist[top.vertex] == Fin(top.key)
      && forall x :: 0 <= x < |vis| && !vis[x] && dist[x].Fin? ==> top.key <= dist[x].n
  {
    var top := Top(pq);
    forall x | 0 <= x < |vis| && !vis[x] && dist[x].Fin? ensures top.key <= dist[x].n {
      assert x in pq && EntryLe(top, Entry(pq[x], x));
    }
  }

  /** One step of the relaxation loop: the edge `G[u][i] = (v, w)` with `v`
      unsettled and `d + w < dist[v]` lowers `dist[v]`, then pushes `v` when
      it has no handle and updates its node otherwise. */
  method RelaxOne(g: Graph, ghost s: nat, u: nat, d: nat, i: nat,
                  dist: seq<Dist>, vis: seq<bool>, pq: Queue, ref: seq<bool>, ghost wit: seq<seq<Hop>>)
    returns (dist': seq<Dist>, pq': Queue, ref': seq<bool>, ghost wit': seq<seq<Hop>>)
    requires RelaxedBut(g, dist, vis, u, i) && u < |g| && vis[u] && i < |g[u]| && dist[u] == Fin(d)
    requires SettledFinite(dist, vis) && Witnessed(g, s, dist, wit)
    requires pq == Open(dist, vis) && Handles(ref, dist)
    ensures var v, c := g[u][i].to, d + g[u][i].w;
      if !vis[v] && Below(c, dist[v]) then dist' == dist[v := Fin(c)] else dist' == dist
    ensures |dist'| == |dist| && dist'[u] == dist[u]
    ensures forall x :: 0 <= x < |g| ==> AtMost(dist'[x], dist[x]) && (vis[x] ==> dist'[x] == dist[x])
    ensures RelaxedBut(g, dist', vis, u, i + 1) && SettledFinite(dist', vis) && Witnessed(g, s, dist', wit')
    ensures SettledWithin(g, s, dist, vis, 1, 1) ==> SettledWithin(g, s, dist', vis, 1, 1)
    ensures pq' == Open(dist', vis) && Handles(ref', dist')
  {
    var v, w := g[u][i].to, g[u][i].w;
    dist', pq', ref', wit' := dist, pq, ref, wit;
    if !vis[v] && Below(d + w, dist[v]) {
      dist', pq', ref' := PushOrUpdate(pq, ref, dist, vis, v, d + w);
      wit' := wit[v := wit[u] + [Hop(u, i)]];
      RelaxLower(g, s, 1, 1, dist, vis, wit, u, i, dist', wit');
    } else {
      RelaxKeep(g, dist, vis, u, i);
    }
  }

  /** `dist[v] = c;` then `if (!ref[v]) ref[v] = pq.push({c, v}); else
      pq.update(ref[v], {c, v});`: the queue follows the open labels. */
  method PushOrUpdate(pq: Queue, ref: seq<bool>, dist: seq<Dist>, vis: seq<bool>, v: nat, c: nat)
    returns (dist': seq<Dist>, pq': Queue, ref': seq<bool>)
    requires |dist| == |vis| && pq == Open(dist, vis) && Handles(ref, dist)
    requires v < |vis| && !vis[v] && Below(c, dist[v])
    ensures dist' == dist[v := Fin(c)]
    ensures pq' == Open(dist', vis) && Handles(ref', dist')
  {
    dist', ref' := dist[v := Fin(c)], ref;
    OpenLower(dist, vis, v, c);
    if !ref[v] {
      ref' := ref[v := true];
      pq' := Push(pq, v, c);
    } else {
      pq' := Update(pq, v, c);
    }
  }

  /** The relaxation loop over `G[u]`, `d` being `u`'s popped key. */
  method Expand(g: Graph, ghost s: nat, u: nat, d: nat,
                dist0: seq<Dist>, vis: seq<bool>, pq0: Queue, ref0: seq<bool>, ghost wit0: seq<seq<Hop>>)
    returns (dist: seq<Dist>, pq: Queue, ref: seq<bool>, ghost wit: seq<seq<Hop>>)
    requires RelaxedBut(g, dist0, vis, u, 0) && u < |g| && vis[u] && dist0[u] == Fin(d)
    requires SettledFinite(dist0, vis) && Witnessed(g, s, dist0, wit0)
    requires pq0 == Open(dist0, vis) && Handles(ref0, dist0)
    ensures |dist| == |g|
    ensures forall v :: 0 <= v < |g| ==> AtMost(dist[v], dist0[v])
    ensures Relaxed(g, dist, vis) && SettledFinite(dist, vis) && Witnessed(g, s, dist, wit)
    ensures SettledWithin(g, s, dist0, vis, 1, 1) ==> SettledWithin(g, s, dist, vis, 1, 1)
    ensures pq == Open(dist, vis) && Handles(ref, dist)
  {
    dist, pq, ref, wit := dist0, pq0, ref0, wit0;
    for i := 0 to |g[u]|
      invariant |dist| == |g| && dist[u] == dist0[u]
      invariant RelaxedBut(g, dist, vis, u, i) && SettledFinite(dist, vis) && Witnessed(g, s, dist, wit)
      invariant forall v :: 0 <= v < |g| ==> AtMost(dist[v], dist0[v])
      invariant SettledWithin(g, s, dist0, vis, 1, 1) ==> SettledWithin(g, s, dist, vis, 1, 1)
      invariant pq == Open(dist, vis) && Handles(ref, dist)
    {
      dist, pq, ref, wit := RelaxOne(g, s, u, d, i, dist, vis, pq, ref, wit);
    }
  }

  /** `dijkstra_fib(G, s, t)`: distances from `s`, exact at `t` when `t` is a
      vertex and exact everywhere when it is not (the default `t = -1`). */
  method DijkstraFib(g: Graph, s: nat, t: int) returns (dist: seq<Dist>)
    requires WellFormed(g) && s < |g|
    ensures |dist| == |g| && dist[s] == Fin(0)
    ensures Achieved(g, s, dist)
    ensures forall v :: 0 <= v < |g| && !Reachable(g, s, v) ==> dist[v].Inf?
    ensures 0 <= t < |g| ==> dist[t] == Delta(g, s, t)
    ensures !(0 <= t < |g|) ==> forall v :: 0 <= v < |g| ==> dist[v] == Delta(g, s, v)
  {
    var n := |g|;
    dist := seq(n, v => if v == s then Fin(0) else Inf);
    var vis := seq(n, _ => false);
    var ref := seq(n, v => v == s);
    ghost var wit: seq<seq<Hop>> := seq(n, _ => []);
    Start(g, s, 1, 1);
    ZerosConsistent(g);
    var pq: Queue := Push(map[], s, 0);
    while |pq| > 0
      invariant |dist| == n && |vis| == n && dist[s] == Fin(0)
      invariant Witnessed(g, s, dist, wit) && Relaxed(g, dist, vis) && SettledWithin(g, s, dist, vis, 1, 1)
      invariant pq == Open(dist, vis) && Handles(ref, dist)
      decreases n - CountTrue(vis)
    {
      TopUnsettled(pq, dist, vis);
      var top := Top(pq);
      pq := Pop(pq);
      var d, u := top.key, top.vertex;
      // The queue holds unsettled vertices only: the `vis[u]` skip is dead.
      assert !vis[u];
      SettleWithin(g, s, Zeros(n), 1, 1, dist, vis, u);
      Settle(g, s, 1, 1, dist, vis, u);
      CountTrueSet(vis, u);
      vis := vis[u := true];
      if u == t {
        break;
      }
      dist, pq, ref, wit := Expand(g, s, u, d, dist, vis, pq, ref, wit);
    }
    WitnessedAchieved(g, s, dist, wit);
    forall v | 0 <= v < n && dist[v].Fin? ensures Reachable(g, s, v) {
      assert Reaches(g, s, v, dist[v].n);
    }
    if !(0 <= t < n && vis[t]) {
      forall x | 0 <= x < n && !vis[x] ensures dist[x].Inf? {
        assert x !in pq;
      }
      AllReachableSettled(g, s, dist, vis);
    }
    if 0 <= t < n {
      ExactWhenSettled(g, s, dist, vis, t);
    } else {
      forall v | 0 <= v < n ensures dist[v] == Delta(g, s, v) {
        ExactWhenSettled(g, s, dist, vis, v);
      }
    }
  }

  /** The Fibonacci-heap search and the binary-heap search with decrease-key
      agree: at `t` when `t` is a vertex, and on the whole vector otherwise. */
  method SameAsDecKey(g: Graph, s: nat, t: int) returns (a: seq<Dist>, b: seq<Dist>)
    requires WellFormed(g) && s < |g|
    ensures |a| == |b| == |g|
    ensures 0 <= t < |g| ==> a[t] == b[t]
    ensures !(0 <= t < |g|) ==> a == b
  {
    a := DijkstraFib(g, s, t);
    b := DijkDecKey.DijkstraDecKey(g, s, t);
  }
}
