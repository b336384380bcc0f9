/**
  dijkstra/dijk_decKey.cpp: `dijkstra_dec_key`, Dijkstra's algorithm over the
  indexed binary heap of `BinaryHeap`, which holds at most one entry per
  vertex and lowers it in place.

  The heap, seen through its `View`, holds exactly the unsettled vertices
  with a finite label and their labels (`Open`). So the popped vertex is
  never settled already and the source's `if (vis[u]) continue;` never fires.
 */
module DijkDecKey {
  import opened Graphs
  import opened PriorityQueue
  import opened BinaryHeap
  import opened Settling

  /** The root of a heap whose view is `Open(dist, vis)` is an unsettled vertex
      whose key is its label, and no unsettled label is smaller. */
  lemma PoppedUnsettled(hp: Heap, dist: seq<Dist>, vis: seq<bool>)
    requires Valid(hp) && |hp.h| > 0 && |dist| == |vis| && View(hp) == Open(dist, vis)
    ensures var top := hp.h[0];
      && top.vertex < |vis| && !vis[top.vertex] && dist[top.vertex] == Fin(top.key)
      && forall x :: 0 <= x < |vis| && !vis[x] && dist[x].Fin? ==> top.key <= dist[x].n
  {
    var top := hp.h[0];
    ViewEntry(hp, top.vertex, top.key);
    RootIsLeast(hp.h);
    forall x | 0 <= x < |vis| && !vis[x] && dist[x].Fin? ensures top.key <= dist[x].n {
      ViewEntry(hp, x, dist[x].n);
    }
  }

  /** One step of the relaxation loop: the edge `G[u][i] = (v, w)` with `v`
      unsettled and `d + w < dist[v]` lowers `dist[v]`, then pushes `v` if the
      heap has no entry for it (`index(v) == -1`) and decreases its key otherwise. */
  method RelaxOne(g: Graph, ghost s: nat, u: nat, d: nat, i: nat,
                  dist: seq<Dist>, vis: seq<bool>, bh: Heap, ghost wit: seq<seq<Hop>>)
    returns (dist': seq<Dist>, bh': Heap, ghost wit': seq<seq<Hop>>)
    requires RelaxedBut(g, dist, vis, u, i) && u < |g| && vis[u] && i < |g[u]| && dist[u] == Fin(d)
    requires SettledFinite(dist, vis) && Witnessed(g, s, dist, wit)
    requires Valid(bh) && |bh.pos| == |g| && View(bh) == Open(dist, vis)
    ensures var v, c := g[u][i].to, d + g[u][i].w;
      if !vis[v] && Below(c, dist[v]) then dist' == dist[v := Fin(c)] else dist' == dist
    ensures |dist'| == |dist| && dist'[u] == dist[u]
    ensures forall x :: 0 <= x < |g| ==> AtMost(dist'[x], dist[x]) && (vis[x] ==> dist'[x] == dist[x])
    ensures RelaxedBut(g, dist', vis, u, i + 1) && SettledFinite(dist', vis) && Witnessed(g, s, dist', wit')
    ensures SettledWithin(g, s, dist, vis, 1, 1) ==> SettledWithin(g, s, dist', vis, 1, 1)
    ensures Valid(bh') && |bh'.pos| == |g| && View(bh') == Open(dist', vis)
  {
    var v, w := g[u][i].to, g[u][i].w;
    dist', bh', wit' := dist, bh, wit;
    if !vis[v] && Below(d + w, dist[v]) {
      dist', bh' := PushOrDecrease(bh, dist, vis, v, d + w);
      wit' := wit[v := wit[u] + [Hop(u, i)]];
      RelaxLower(g, s, 1, 1, dist, vis, wit, u, i, dist', wit');
    } else {
      RelaxKeep(g, dist, vis, u, i);
    }
  }

  /** `dist[v] = c;` then `if (bh.index(v) == -1) bh.push(v, c); else
      bh.decrease(v, c);`: the heap's view follows the open labels. */
  method PushOrDecrease(bh: Heap, dist: seq<Dist>, vis: seq<bool>, v: nat, c: nat)
    returns (dist': seq<Dist>, bh': Heap)
    requires Valid(bh) && |bh.pos| == |dist| == |vis| && View(bh) == Open(dist, vis)
    requires v < |vis| && !vis[v] && Below(c, dist[v])
    ensures dist' == dist[v := Fin(c)]
    ensures Valid(bh') && |bh'.pos| == |bh.pos| && View(bh') == Open(dist', vis)
  {
    dist' := dist[v := Fin(c)];
    OpenLower(dist, vis, v, c);
    if Index(bh, v) == -1 {
      bh' := Push(bh, v, c);
    } else {
      bh' := Decrease(bh, v, c);
    }
  }

  /** The relaxation loop over `G[u]`, `d` being `u`'s popped key. */
  method Expand(g: Graph, ghost s: nat, u: nat, d: nat,
                dist0: seq<Dist>, vis: seq<bool>, bh0: Heap, ghost wit0: seq<seq<Hop>>)
    returns (dist: seq<Dist>, bh: Heap, ghost wit: seq<seq<Hop>>)
    requires RelaxedBut(g, dist0, vis, u, 0) && u < |g| && vis[u] && dist0[u] == Fin(d)
    requires SettledFinite(dist0, vis) && Witnessed(g, s, dist0, wit0)
    requires Valid(bh0) && |bh0.pos| == |g| && View(bh0) == Open(dist0, vis)
    ensures |dist| == |g|
    ensures forall v :: 0 <= v < |g| ==> AtMost(dist[v], dist0[v])
    ensures Relaxed(g, dist, vis) && SettledFinite(dist, vis) && Witnessed(g, s, dist, wit)
    ensures SettledWithin(g, s, dist0, vis, 1, 1) ==> SettledWithin(g, s, dist, vis, 1, 1)
    ensures Valid(bh) && |bh.pos| == |g| && View(bh) == Open(dist, vis)
  {
    dist, bh, wit := dist0, bh0, wit0;
    for i := 0 to |g[u]|
      invariant |dist| == |g| && dist[u] == dist0[u]
      invariant RelaxedBut(g, dist, vis, u, i) && SettledFinite(dist, vis) && Witnessed(g, s, dist, wit)
      invariant forall v :: 0 <= v < |g| ==> AtMost(dist[v], dist0[v])
      invariant SettledWithin(g, s, dist0, vis, 1, 1) ==> SettledWithin(g, s, dist, vis, 1, 1)
      invariant Valid(bh) && |bh.pos| == |g| && View(bh) == Open(dist, vis)
    {
      dist, bh, wit := RelaxOne(g, s, u, d, i, dist, vis, bh, wit);
    }
  }

  /** `dijkstra_dec_key(G, s, t)`: distances from `s`, exact at `t` when `t` is
      a vertex and exact everywhere when it is not (the default `t = -1`). */
  method DijkstraDecKey(g: Graph, s: nat, t: int) returns (dist: seq<Dist>)
    requires WellFormed(g) && s < |g|
    ensures |dist| == |g| && dist[s] == Fin(0)
    ensures Achieved(g, s, dist)
    ensures forall v :: 0 <= v < |g| && !Reachable(g, s, v) ==> dist[v].Inf?
    ensures 0 <= t < |g| ==> dist[t] == Delta(g, s, t)
    ensures !(0 <= t < |g|) ==> forall v :: 0 <= v < |g| ==> dist[v] == Delta(g, s, v)
  {
    var n := |g|;
    dist := seq(n, v => if v == s then Fin(0) else Inf);
    var vis := seq(n, _ => false);
    ghost var wit: seq<seq<Hop>> := seq(n, _ => []);
    Start(g, s, 1, 1);
    ZerosConsistent(g);
    var bh := Empty(n);
    bh := Push(bh, s, 0);
    while |bh.h| > 0
      invariant |dist| == n && |vis| == n && dist[s] == Fin(0)
      invariant Witnessed(g, s, dist, wit) && Relaxed(g, dist, vis) && SettledWithin(g, s, dist, vis, 1, 1)
      invariant Valid(bh) && |bh.pos| == n && View(bh) == Open(dist, vis)
      decreases n - CountTrue(vis)
    {
      PoppedUnsettled(bh, dist, vis);
      var top;
      top, bh := Pop(bh);
      var d, u := top.key, top.vertex;
      // Every heap entry belongs to an unsettled vertex: the `vis[u]` skip is dead.
      assert !vis[u];
      SettleWithin(g, s, Zeros(n), 1, 1, dist, vis, u);
      Settle(g, s, 1, 1, dist, vis, u);
      CountTrueSet(vis, u);
      vis := vis[u := true];
      if u == t {
        break;
      }
      dist, bh, wit := Expand(g, s, u, d, dist, vis, bh, wit);
    }
    WitnessedAchieved(g, s, dist, wit);
    forall v | 0 <= v < n && dist[v].Fin? ensures Reachable(g, s, v) {
      assert Reaches(g, s, v, dist[v].n);
    }
    if !(0 <= t < n && vis[t]) {
      forall x | 0 <= x < n && !vis[x] ensures dist[x].Inf? {
        assert x !in View(bh);
      }
      AllReachableSettled(g, s, dist, vis);
    }
    if 0 <= t < n {
      ExactWhenSettled(g, s, dist, vis, t);
    } else {
      forall v | 0 <= v < n ensures dist[v] == Delta(g, s, v) {
        ExactWhenSettled(g, s, dist, vis, v);
      }
    }
  }
}
