/**
  The label-setting invariants shared by every search variant that keeps a
  `vis` (or `closed`) array: Dijkstra with lazy re-insertion, with a binary
  heap and decrease-key, with a Fibonacci heap, and A* with priority
  `g + w * h`.

  The weighted priority `g + (num / den) * h` is kept scaled by `den`, as
  `den * g + num * h`, which orders the frontier the same way and stays
  integral. Dijkstra's algorithm is the instance `h = 0`, `num = den = 1`.
 */
module Settling {
  import opened Graphs

  /** The frontier priority of vertex `v` with tentative distance `c`. */
  function Priority(h: seq<nat>, num: nat, den: nat, v: nat, c: nat): nat
    requires v < |h|
  {
    den * c + num * h[v]
  }

  /** Number of settled vertices. */
  function CountTrue(vis: seq<bool>): (c: nat)
    ensures c <= |vis|
    decreases |vis|
  {
    if |vis| == 0 then 0
    else CountTrue(vis[..|vis| - 1]) + (if vis[|vis| - 1] then 1 else 0)
  }

  /** Settling one more vertex raises the count by exactly one. */
  lemma {:induction false} CountTrueSet(vis: seq<bool>, u: nat)
    requires u < |vis| && !vis[u]
    ensures CountTrue(vis[u := true]) == CountTrue(vis) + 1
    decreases |vis|
  {
    var vis' := vis[u := true];
    var n := |vis|;
    assert vis'[..n - 1] == if u == n - 1 then vis[..n - 1] else vis[..n - 1][u := true];
    if u < n - 1 {
      CountTrueSet(vis[..n - 1], u);
    }
  }

  /** Every finite label is the cost of the walk recorded for its vertex. */
  ghost predicate Witnessed(g: Graph, s: nat, dist: seq<Dist>, wit: seq<seq<Hop>>) {
    && |wit| == |dist|
    && forall v :: 0 <= v < |dist| && dist[v].Fin? ==> IsWalk(g, s, wit[v], v) && Cost(g, wit[v]) == dist[v].n
  }

  ghost predicate SettledFinite(dist: seq<Dist>, vis: seq<bool>) {
    |dist| == |vis| && forall v :: 0 <= v < |vis| && vis[v] ==> dist[v].Fin?
  }

  /** Every settled label is within the factor `num / den` of the shortest distance. */
  ghost predicate SettledWithin(g: Graph, s: nat, dist: seq<Dist>, vis: seq<bool>, num: nat, den: nat) {
    && SettledFinite(dist, vis)
    && forall v :: 0 <= v < |vis| && vis[v] ==> WithinFactor(g, s, v, dist[v].n, num, den)
  }

  /** The edges of settled vertices into unsettled ones have been relaxed,
      except the edges `i..` of the vertex `u` being expanded. */
  ghost predicate RelaxedBut(g: Graph, dist: seq<Dist>, vis: seq<bool>, u: int, i: nat) {
    && WellFormed(g) && |dist| == |g| && |vis| == |g|
    && forall y, j :: 0 <= y < |g| && vis[y] && 0 <= j < |g[y]| && (y != u || j < i) && !vis[g[y][j].to] ==>
         dist[y].Fin? && AtMost(dist[g[y][j].to], Fin(dist[y].n + g[y][j].w))
  }

  ghost predicate Relaxed(g: Graph, dist: seq<Dist>, vis: seq<bool>) {
    RelaxedBut(g, dist, vis, -1, 0)
  }

  /** The unsettled vertices with a finite label, and their labels: the
      contents a decrease-key frontier must hold. */
  ghost function Open(dist: seq<Dist>, vis: seq<bool>): map<nat, nat>
    requires |dist| == |vis|
  {
    map v: nat | v < |vis| && !vis[v] && dist[v].Fin? :: dist[v].n
  }

  /** The state every search starts from: only `s` is labelled, nothing is settled. */
  lemma Start(g: Graph, s: nat, num: nat, den: nat)
    requires WellFormed(g) && s < |g|
    ensures var dist := seq(|g|, v => if v == s then Fin(0) else Inf);
      var vis := seq(|g|, _ => false);
      && Witnessed(g, s, dist, seq(|g|, _ => []))
      && SettledWithin(g, s, dist, vis, num, den)
      && Relaxed(g, dist, vis)
      && CountTrue(vis) == 0
      && Open(dist, vis) == map[s := 0]
  {
    var vis := seq(|g|, _ => false);
    CountTrueFalse(vis);
  }

  lemma {:induction false} CountTrueFalse(vis: seq<bool>)
    requires forall v :: 0 <= v < |vis| ==> !vis[v]
    ensures CountTrue(vis) == 0
    decreases |vis|
  {
    if |vis| > 0 {
      CountTrueFalse(vis[..|vis| - 1]);
    }
  }

  /** Along any walk from `s` to an unsettled vertex `v` there is an unsettled
      labelled vertex whose priority is at most `num` times the walk's cost
      plus `num * h[v]`. */
  lemma {:induction false} Frontier(g: Graph, s: nat, h: seq<nat>, num: nat, den: nat,
                                    dist: seq<Dist>, vis: seq<bool>, p: seq<Hop>, v: nat)
    requires WellFormed(g) && s < |g| && Consistent(g, h) && den <= num
    requires Relaxed(g, dist, vis) && SettledWithin(g, s, dist, vis, num, den)
    requires dist[s] == Fin(0)
    requires v < |g| && !vis[v] && IsWalk(g, s, p, v)
    ensures exists x :: (0 <= x < |g| && !vis[x] && dist[x].Fin? &&
      Priority(h, num, den, x, dist[x].n) <= num * Cost(g, p) + num * h[v])
    decreases |p|
  {
    if |p| == 0 {
      assert Priority(h, num, den, s, dist[s].n) == num * h[s];
    } else {
      var last := p[|p| - 1];
      var y, i, p' := last.from, last.index, p[..|p| - 1];
      var w := g[y][i].w;
      WalkSplit(g, s, p, v);
      MulAdd(num, Cost(g, p'), w);
      if !vis[y] {
        Frontier(g, s, h, num, den, dist, vis, p', y);
        var x :| 0 <= x < |g| && !vis[x] && dist[x].Fin? &&
          Priority(h, num, den, x, dist[x].n) <= num * Cost(g, p') + num * h[y];
        MulLe(num, h[y], w + h[v]);
        MulAdd(num, w, h[v]);
        assert Priority(h, num, den, x, dist[x].n) <= num * Cost(g, p) + num * h[v];
      } else {
        assert dist[v].n <= dist[y].n + w;
        assert den * dist[y].n <= num * Cost(g, p');
        MulLe(den, dist[v].n, dist[y].n + w);
        MulAdd(den, dist[y].n, w);
        FactorLe(w, num, den);
        assert Priority(h, num, den, v, dist[v].n) <= num * Cost(g, p) + num * h[v];
      }
    }
  }

  /** An unsettled vertex of least priority is within the factor `num / den`
      when it is settled. */
  lemma SettleWithin(g: Graph, s: nat, h: seq<nat>, num: nat, den: nat,
                     dist: seq<Dist>, vis: seq<bool>, u: nat)
    requires WellFormed(g) && s < |g| && Consistent(g, h) && den <= num
    requires Relaxed(g, dist, vis) && SettledWithin(g, s, dist, vis, num, den)
    requires dist[s] == Fin(0)
    requires u < |g| && !vis[u] && dist[u].Fin?
    requires forall x :: 0 <= x < |g| && !vis[x] && dist[x].Fin? ==>
      Priority(h, num, den, u, dist[u].n) <= Priority(h, num, den, x, dist[x].n)
    ensures WithinFactor(g, s, u, dist[u].n, num, den)
  {
    forall p | IsWalk(g, s, p, u) ensures den * dist[u].n <= num * Cost(g, p) {
      Frontier(g, s, h, num, den, dist, vis, p, u);
    }
  }

  /** Settling `u`: its own edges are the ones still to relax. */
  lemma Settle(g: Graph, s: nat, num: nat, den: nat, dist: seq<Dist>, vis: seq<bool>, u: nat)
    requires Relaxed(g, dist, vis) && SettledFinite(dist, vis)
    requires u < |g| && !vis[u] && dist[u].Fin?
    ensures RelaxedBut(g, dist, vis[u := true], u, 0)
    ensures SettledFinite(dist, vis[u := true])
    ensures SettledWithin(g, s, dist, vis, num, den) && WithinFactor(g, s, u, dist[u].n, num, den) ==>
      SettledWithin(g, s, dist, vis[u := true], num, den)
    ensures Open(dist, vis[u := true]) == Open(dist, vis) - {u}
  {
  }

  /** A failed test `d + w < dist[v]` (or a settled `v`) leaves every label
      as it is: the `i`-th edge of `u` is relaxed already. */
  lemma RelaxKeep(g: Graph, dist: seq<Dist>, vis: seq<bool>, u: nat, i: nat)
    requires RelaxedBut(g, dist, vis, u, i) && SettledFinite(dist, vis)
    requires u < |g| && vis[u] && i < |g[u]|
    requires var v := g[u][i].to; !(!vis[v] && Below(dist[u].n + g[u][i].w, dist[v]))
    ensures RelaxedBut(g, dist, vis, u, i + 1)
  {
  }

  /** Lowering `dist[v]` to `d + w` through the `i`-th edge `(v, w)` of the
      settled vertex `u` keeps the edges relaxed and the labels witnessed. */
  lemma RelaxLower(g: Graph, s: nat, num: nat, den: nat, dist: seq<Dist>, vis: seq<bool>,
                   wit: seq<seq<Hop>>, u: nat, i: nat, dist': seq<Dist>, wit': seq<seq<Hop>>)
    requires RelaxedBut(g, dist, vis, u, i) && SettledFinite(dist, vis) && Witnessed(g, s, dist, wit)
    requires u < |g| && vis[u] && i < |g[u]|
    requires var v, c := g[u][i].to, dist[u].n + g[u][i].w;
      && !vis[v] && Below(c, dist[v])
      && dist' == dist[v := Fin(c)] && wit' == wit[v := wit[u] + [Hop(u, i)]]
    ensures RelaxedBut(g, dist', vis, u, i + 1) && SettledFinite(dist', vis)
    ensures Witnessed(g, s, dist', wit')
    ensures SettledWithin(g, s, dist, vis, num, den) ==> SettledWithin(g, s, dist', vis, num, den)
  {
    WalkExtend(g, s, wit[u], u, i);
  }

  /** Lowering an unsettled label lowers its entry of `Open`. */
  lemma OpenLower(dist: seq<Dist>, vis: seq<bool>, v: nat, c: nat)
    requires |dist| == |vis| && v < |vis| && !vis[v]
    ensures Open(dist[v := Fin(c)], vis) == Open(dist, vis)[v := c]
  {
  }

  /** Once nothing unsettled carries a label, every vertex reachable from `s`
      is settled. */
  lemma AllReachableSettled(g: Graph, s: nat, dist: seq<Dist>, vis: seq<bool>)
    requires Relaxed(g, dist, vis) && s < |g| && dist[s].Fin?
    requires forall x :: 0 <= x < |g| && !vis[x] ==> dist[x].Inf?
    ensures forall v: nat :: Reachable(g, s, v) ==> v < |g| && vis[v]
  {
    forall v: nat | Reachable(g, s, v) ensures v < |g| && vis[v] {
      var p :| IsWalk(g, s, p, v);
      WalkSettled(g, s, dist, vis, p, v);
    }
  }

  lemma {:induction false} WalkSettled(g: Graph, s: nat, dist: seq<Dist>, vis: seq<bool>, p: seq<Hop>, v: nat)
    requires Relaxed(g, dist, vis) && s < |g| && dist[s].Fin?
    requires forall x :: 0 <= x < |g| && !vis[x] ==> dist[x].Inf?
    requires IsWalk(g, s, p, v)
    ensures v < |g| && vis[v]
    decreases |p|
  {
    if |p| > 0 {
      var last := p[|p| - 1];
      WalkSplit(g, s, p, v);
      WalkSettled(g, s, dist, vis, p[..|p| - 1], last.from);
    }
  }

  /** Every finite label is the cost of some walk from `s`. */
  ghost predicate Achieved(g: Graph, s: nat, dist: seq<Dist>) {
    forall v :: 0 <= v < |dist| && dist[v].Fin? ==> Reaches(g, s, v, dist[v].n)
  }

  lemma WitnessedAchieved(g: Graph, s: nat, dist: seq<Dist>, wit: seq<seq<Hop>>)
    requires Witnessed(g, s, dist, wit)
    ensures Achieved(g, s, dist)
  {
    forall v | 0 <= v < |dist| && dist[v].Fin? ensures Reaches(g, s, v, dist[v].n) {
      assert IsWalk(g, s, wit[v], v);
    }
  }

  /** A label that is achieved and within factor 1 of every walk is the
      shortest distance; an unreachable vertex's label is `Inf`. */
  lemma ExactWhenSettled(g: Graph, s: nat, dist: seq<Dist>, vis: seq<bool>, v: nat)
    requires Achieved(g, s, dist) && SettledWithin(g, s, dist, vis, 1, 1)
    requires v < |dist| && (vis[v] || !Reachable(g, s, v))
    ensures dist[v] == Delta(g, s, v)
  {
    if dist[v].Fin? {
      assert Reaches(g, s, v, dist[v].n);
      if vis[v] {
        WithinFactorOne(g, s, v, dist[v].n);
      }
    }
    ShortestIsDelta(g, s, v, dist[v]);
  }

  /** A lower label never has a higher priority. */
  lemma PriorityMono(h: seq<nat>, num: nat, den: nat, v: nat, a: nat, b: nat)
    requires v < |h| && a <= b
    ensures Priority(h, num, den, v, a) <= Priority(h, num, den, v, b)
  {
    MulLe(den, a, b);
  }
}
