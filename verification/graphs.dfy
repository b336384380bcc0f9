/**
  Weighted adjacency-list graphs, walks over them, and the shortest-path
  distance that every search variant is specified against.

  Vertices are the indices `0 .. |g| - 1`; an edge carries a non-negative
  integral weight (the data sets use whole metres).
 */
module Graphs {

  /** One entry of an adjacency list: an edge to `to` of weight `w`. */
  datatype Edge = Edge(to: nat, w: nat)

  type Graph = seq<seq<Edge>>

  /** A tentative or final distance; `Inf` is the source's INF sentinel. */
  datatype Dist = Inf | Fin(n: nat)

  /** `c < d`, reading `Inf` as larger than every finite value. */
  predicate Below(c: nat, d: Dist) {
    d.Inf? || c < d.n
  }

  /** `a <= b` on distances, `Inf` being the greatest. */
  predicate AtMost(a: Dist, b: Dist) {
    b.Inf? || (a.Fin? && a.n <= b.n)
  }

  /** Every edge points at a vertex of the graph. */
  ghost predicate WellFormed(g: Graph) {
    forall u, i :: 0 <= u < |g| && 0 <= i < |g[u]| ==> g[u][i].to < |g|
  }

  /** Every edge u -> v of weight w has a partner edge v -> u of weight w. */
  ghost predicate Symmetric(g: Graph) {
    forall u, e :: 0 <= u < |g| && e in g[u] ==> e.to < |g| && Edge(u, e.w) in g[e.to]
  }

  /** Sum of the lengths of all adjacency lists. */
  function TotalSize(g: Graph): nat {
    if |g| == 0 then 0 else TotalSize(g[..|g| - 1]) + |g[|g| - 1]|
  }

  /** The `index`-th edge of `from`'s adjacency list, taken as one step of a walk. */
  datatype Hop = Hop(from: nat, index: nat)

  /** `p` is a walk in `g` from `s` to `v` (read from its last hop backwards). */
  ghost predicate IsWalk(g: Graph, s: nat, p: seq<Hop>, v: nat)
    decreases |p|
  {
    if |p| == 0 then v == s
    else
      var last := p[|p| - 1];
      && last.from < |g|
      && last.index < |g[last.from]|
      && g[last.from][last.index].to == v
      && IsWalk(g, s, p[..|p| - 1], last.from)
  }

  /** Total weight of the hops of `p` (a hop that names no edge weighs nothing). */
  function Cost(g: Graph, p: seq<Hop>): nat
    decreases |p|
  {
    if |p| == 0 then 0
    else
      var last := p[|p| - 1];
      Cost(g, p[..|p| - 1])
      + (if last.from < |g| && last.index < |g[last.from]| then g[last.from][last.index].w else 0)
  }

  ghost predicate Reachable(g: Graph, s: nat, v: nat) {
    exists p :: IsWalk(g, s, p, v)
  }

  /** Some walk from `s` to `v` costs exactly `c`. */
  ghost predicate Reaches(g: Graph, s: nat, v: nat, c: nat) {
    exists p :: IsWalk(g, s, p, v) && Cost(g, p) == c
  }

  /** No walk from `s` to `v` costs less than `c`. */
  ghost predicate LowerBound(g: Graph, s: nat, v: nat, c: nat) {
    forall p :: IsWalk(g, s, p, v) ==> c <= Cost(g, p)
  }

  /** `den * c` is at most `num` times the cost of every walk from `s` to `v`:
      `c` is within the factor `num / den` of the shortest distance. */
  ghost predicate WithinFactor(g: Graph, s: nat, v: nat, c: nat, num: nat, den: nat) {
    forall p :: IsWalk(g, s, p, v) ==> den * c <= num * Cost(g, p)
  }

  /** `d` is the shortest-path distance from `s` to `v`. */
  ghost predicate IsShortest(g: Graph, s: nat, v: nat, d: Dist) {
    match d
    case Inf => !Reachable(g, s, v)
    case Fin(c) => Reaches(g, s, v, c) && LowerBound(g, s, v, c)
  }

  /** The heuristic never decreases by more than an edge's weight along that edge. */
  ghost predicate Consistent(g: Graph, h: seq<nat>) {
    && |h| == |g|
    && forall u, i :: 0 <= u < |g| && 0 <= i < |g[u]| && g[u][i].to < |g| ==>
         h[u] <= g[u][i].w + h[g[u][i].to]
  }

  /** The heuristic never overestimates the cost of reaching `t`. */
  ghost predicate Admissible(g: Graph, h: seq<nat>, t: nat) {
    forall v :: 0 <= v < |h| ==> LowerBound(g, v, t, h[v])
  }

  lemma WalkExtend(g: Graph, s: nat, p: seq<Hop>, u: nat, i: nat)
    requires IsWalk(g, s, p, u)
    requires u < |g| && i < |g[u]|
    ensures IsWalk(g, s, p + [Hop(u, i)], g[u][i].to)
    ensures Cost(g, p + [Hop(u, i)]) == Cost(g, p) + g[u][i].w
  {
    var q := p + [Hop(u, i)];
    assert q[|q| - 1] == Hop(u, i);
    assert q[..|q| - 1] == p;
  }

  /** The last hop of a non-empty walk, and the walk before it. */
  lemma WalkSplit(g: Graph, s: nat, p: seq<Hop>, v: nat)
    requires IsWalk(g, s, p, v) && |p| > 0
    ensures var last := p[|p| - 1];
      && last.from < |g| && last.index < |g[last.from]|
      && g[last.from][last.index].to == v
      && IsWalk(g, s, p[..|p| - 1], last.from)
      && Cost(g, p) == Cost(g, p[..|p| - 1]) + g[last.from][last.index].w
  {
  }

  lemma {:induction false} WalkEndsInGraph(g: Graph, s: nat, p: seq<Hop>, v: nat)
    requires WellFormed(g) && s < |g| && IsWalk(g, s, p, v)
    ensures v < |g|
  {
    if |p| > 0 {
      var last := p[|p| - 1];
      assert g[last.from][last.index].to == v;
    }
  }

  /** A reachable vertex has a cheapest walk: the walk costs are naturals. */
  lemma {:induction false} MinCostExists(g: Graph, s: nat, v: nat, c: nat)
    requires exists p :: IsWalk(g, s, p, v) && Cost(g, p) <= c
    ensures exists m :: Reaches(g, s, v, m) && LowerBound(g, s, v, m)
    decreases c
  {
    if c > 0 && exists p :: IsWalk(g, s, p, v) && Cost(g, p) <= c - 1 {
      MinCostExists(g, s, v, c - 1);
    } else {
      var p :| IsWalk(g, s, p, v) && Cost(g, p) <= c;
      assert Reaches(g, s, v, Cost(g, p));
      forall q | IsWalk(g, s, q, v) ensures Cost(g, p) <= Cost(g, q) {
        if c > 0 {
          assert !(IsWalk(g, s, q, v) && Cost(g, q) <= c - 1);
        }
      }
    }
  }

  /** The shortest-path distance from `s` to `v`. */
  ghost function Delta(g: Graph, s: nat, v: nat): (d: Dist)
    ensures IsShortest(g, s, v, d)
  {
    if Reachable(g, s, v) then
      var p :| IsWalk(g, s, p, v);
      MinCostExists(g, s, v, Cost(g, p));
      var m :| Reaches(g, s, v, m) && LowerBound(g, s, v, m);
      Fin(m)
    else
      Inf
  }

  /** The shortest distance is unique, so `IsShortest` pins a value down. */
  lemma ShortestUnique(g: Graph, s: nat, v: nat, d: Dist, d': Dist)
    requires IsShortest(g, s, v, d) && IsShortest(g, s, v, d')
    ensures d == d'
  {
    if Reachable(g, s, v) {
      assert d.Fin? && d'.Fin?;
      var p :| IsWalk(g, s, p, v) && Cost(g, p) == d.n;
      var q :| IsWalk(g, s, q, v) && Cost(g, q) == d'.n;
    } else {
      assert d.Inf? && d'.Inf?;
    }
  }

  /** A distance that is achieved and is a lower bound is the shortest one. */
  lemma ShortestIsDelta(g: Graph, s: nat, v: nat, d: Dist)
    requires IsShortest(g, s, v, d)
    ensures d == Delta(g, s, v)
  {
    ShortestUnique(g, s, v, d, Delta(g, s, v));
  }

  /** Every vertex is at distance zero from itself, by the empty walk. */
  lemma DeltaSelf(g: Graph, s: nat)
    ensures Delta(g, s, s) == Fin(0)
  {
    assert IsWalk(g, s, [], s) && Cost(g, []) == 0;
    ShortestIsDelta(g, s, s, Fin(0));
  }

  /** The cost of any walk bounds the shortest distance from above. */
  lemma DeltaBelow(g: Graph, s: nat, v: nat, c: nat)
    requires Reaches(g, s, v, c)
    ensures Delta(g, s, v).Fin? && Delta(g, s, v).n <= c
  {
    var p :| IsWalk(g, s, p, v) && Cost(g, p) == c;
  }

  /** A value within the factor `num / den` of every walk is within that
      factor of the shortest distance. */
  lemma DeltaWithin(g: Graph, s: nat, v: nat, c: nat, num: nat, den: nat)
    requires WithinFactor(g, s, v, c, num, den) && Reachable(g, s, v)
    ensures Delta(g, s, v).Fin? && den * c <= num * Delta(g, s, v).n
  {
    var p :| IsWalk(g, s, p, v) && Cost(g, p) == Delta(g, s, v).n;
  }

  /** Along a walk, a consistent heuristic drops by at most the walk's cost. */
  lemma {:induction false} ConsistentAlongWalk(g: Graph, h: seq<nat>, s: nat, p: seq<Hop>, v: nat)
    requires WellFormed(g) && Consistent(g, h) && s < |g|
    requires IsWalk(g, s, p, v)
    ensures v < |g| && h[s] <= Cost(g, p) + h[v]
    decreases |p|
  {
    if |p| > 0 {
      var last := p[|p| - 1];
      WalkSplit(g, s, p, v);
      ConsistentAlongWalk(g, h, s, p[..|p| - 1], last.from);
    }
  }

  /** A consistent heuristic that is 0 at the goal is admissible. */
  lemma ConsistentIsAdmissible(g: Graph, h: seq<nat>, t: nat)
    requires WellFormed(g) && Consistent(g, h) && t < |g| && h[t] == 0
    ensures Admissible(g, h, t)
  {
    forall v, p | 0 <= v < |h| && IsWalk(g, v, p, t) ensures h[v] <= Cost(g, p) {
      ConsistentAlongWalk(g, h, v, p, t);
    }
  }

  /** Every edge out of a vertex with a finite label leads to a vertex whose
      label is at most the sum: `d` is a feasible potential of `g`. */
  ghost predicate Feasible(g: Graph, d: seq<Dist>) {
    && |d| == |g|
    && forall u, i :: 0 <= u < |g| && 0 <= i < |g[u]| && d[u].Fin? ==>
         g[u][i].to < |g| && AtMost(d[g[u][i].to], Fin(d[u].n + g[u][i].w))
  }

  /** A feasible potential that is 0 at `s` is a lower bound on every walk from `s`. */
  lemma {:induction false} FeasibleBound(g: Graph, d: seq<Dist>, s: nat, p: seq<Hop>, v: nat)
    requires Feasible(g, d) && s < |g| && d[s] == Fin(0)
    requires IsWalk(g, s, p, v)
    ensures v < |g| && d[v].Fin? && d[v].n <= Cost(g, p)
    decreases |p|
  {
    if |p| > 0 {
      var last := p[|p| - 1];
      WalkSplit(g, s, p, v);
      FeasibleBound(g, d, s, p[..|p| - 1], last.from);
    }
  }

  /** The zero heuristic, which turns A* into Dijkstra's algorithm. */
  function Zeros(n: nat): (h: seq<nat>)
    ensures |h| == n && forall v :: 0 <= v < n ==> h[v] == 0
  {
    seq(n, _ => 0)
  }

  lemma ZerosConsistent(g: Graph)
    ensures Consistent(g, Zeros(|g|))
  {
  }

  /** With factor 1 the bound is an ordinary lower bound. */
  lemma WithinFactorOne(g: Graph, s: nat, v: nat, c: nat)
    requires WithinFactor(g, s, v, c, 1, 1)
    ensures LowerBound(g, s, v, c)
  {
    forall p | IsWalk(g, s, p, v) ensures c <= Cost(g, p) {
      assert 1 * c <= 1 * Cost(g, p);
    }
  }

  /** With factor num/num the bound is an ordinary lower bound. */
  lemma WithinEqualFactor(g: Graph, s: nat, v: nat, c: nat, k: nat)
    requires k > 0 && WithinFactor(g, s, v, c, k, k)
    ensures LowerBound(g, s, v, c)
  {
    forall p | IsWalk(g, s, p, v) ensures c <= Cost(g, p) {
      assert k * c <= k * Cost(g, p);
      if c > Cost(g, p) {
        MulStrict(k, Cost(g, p), c);
      }
    }
  }

  lemma MulLe(k: nat, a: nat, b: nat)
    requires a <= b
    ensures k * a <= k * b
  {
  }

  lemma MulAdd(k: nat, a: nat, b: nat)
    ensures k * (a + b) == k * a + k * b
  {
  }

  lemma FactorLe(a: nat, num: nat, den: nat)
    requires den <= num
    ensures den * a <= num * a
  {
  }

  lemma MulStrict(k: nat, a: nat, b: nat)
    requires a < b && k > 0
    ensures k * a < k * b
  {
  }
}
