/**
  astar/astar_alt.cpp: A* with the ALT heuristic (A*, Landmarks, Triangle
  inequality). Landmarks are chosen farthest-point first, a distance table
  is computed from each, and the heuristic of `v` is the largest
  `|d(L, v) - d(L, t)|` over the landmarks `L`.

  The table is exact (`Dist`), not rounded to 32-bit floats. An infinite
  entry behaves as in IEEE arithmetic: `|inf - inf|` is NaN and never beats
  the running maximum, `|inf - x|` is infinite.
 */
module AStarAlt {
  import opened Graphs
  import opened Settling
  import opened GraphIO
  import LazySearch

  /** `dijkstra(G, s)`: the lazy label-setting search with no target and a
      zero heuristic, which labels every vertex with its distance from `s`. */
  method Dijkstra(g: Graph, s: nat) returns (d: seq<Dist>)
    requires WellFormed(g) && s < |g|
    ensures |d| == |g| && forall v :: 0 <= v < |g| ==> d[v] == Delta(g, s, v)
  {
    ZerosConsistent(g);
    var vis, nodes;
    d, vis, nodes := LazySearch.Search(g, s, -1, Zeros(|g|), 1, 1);
    forall v | 0 <= v < |g| ensures d[v] == Delta(g, s, v) {
      ExactWhenSettled(g, s, d, vis, v);
    }
  }

  /** `i` is where `std::max_element` stops: a largest entry (with `Inf`
      above every number), and the first of them. */
  predicate IsFirstMax(d: seq<Dist>, i: nat) {
    && i < |d|
    && (forall j :: 0 <= j < |d| ==> AtMost(d[j], d[i]))
    && (forall j :: 0 <= j < i ==> !AtMost(d[i], d[j]))
  }

  /** At most one position is the first maximum. */
  lemma FirstMaxUnique(d: seq<Dist>, i: nat, j: nat)
    requires IsFirstMax(d, i) && IsFirstMax(d, j)
    ensures i == j
  {
    assert AtMost(d[j], d[i]) && AtMost(d[i], d[j]);
  }

  /** `max_element` over a non-empty vector: the running maximum is replaced
      only by a strictly larger entry. */
  method MaxElement(d: seq<Dist>) returns (i: nat)
    requires |d| > 0
    ensures IsFirstMax(d, i)
  {
    i := 0;
    for j := 1 to |d|
      invariant i < j
      invariant forall k :: 0 <= k < j ==> AtMost(d[k], d[i])
      invariant forall k :: 0 <= k < i ==> !AtMost(d[i], d[k])
    {
      if !AtMost(d[j], d[i]) {
        i := j;
      }
    }
  }

  /** `std::min` on distances. */
  function MinDist(a: Dist, b: Dist): (r: Dist)
    ensures AtMost(r, a) && AtMost(r, b) && (r == a || r == b)
  {
    if AtMost(a, b) then a else b
  }

  /** The distances of every vertex from `s`. */
  ghost function DeltaRow(g: Graph, s: nat): (r: seq<Dist>)
    ensures |r| == |g|
  {
    seq(|g|, v requires 0 <= v => Delta(g, s, v))
  }

  /** The distance from the nearest of the landmarks `ls` to `v`, `Inf` for none. */
  ghost function Nearest(g: Graph, ls: seq<nat>, v: nat): Dist
    decreases |ls|
  {
    if |ls| == 0 then Inf else MinDist(Nearest(g, ls[..|ls| - 1], v), Delta(g, ls[|ls| - 1], v))
  }

  /** The distance of every vertex from the landmark set `ls`. */
  ghost function Spread(g: Graph, ls: seq<nat>): (r: seq<Dist>)
    ensures |r| == |g|
  {
    seq(|g|, v requires 0 <= v => Nearest(g, ls, v))
  }

  /** One pass of `d_min[v] = min(d_min[v], dL[v])` with the distances of landmark `l`. */
  method FoldLandmark(g: Graph, ghost ls: seq<nat>, l: nat, dmin: seq<Dist>) returns (dmin': seq<Dist>)
    requires WellFormed(g) && l < |g| && dmin == Spread(g, ls)
    ensures dmin' == Spread(g, ls + [l])
  {
    var dL := Dijkstra(g, l);
    dmin' := dmin;
    for v := 0 to |g|
      invariant |dmin'| == |g|
      invariant forall x :: 0 <= x < v ==> dmin'[x] == MinDist(dmin[x], dL[x])
      invariant forall x :: v <= x < |g| ==> dmin'[x] == dmin[x]
    {
      dmin' := dmin'[v := MinDist(dmin'[v], dL[v])];
    }
    assert (ls + [l])[..|ls|] == ls;
  }

  /** `pick_landmarks(G, k)`: the first landmark is a farthest vertex from 0,
      and each further one is a farthest vertex from the landmarks so far,
      the first such vertex in both cases; `max(k, 1)` landmarks in all. */
  method PickLandmarks(g: Graph, k: int) returns (ls: seq<nat>)
    requires WellFormed(g) && |g| > 0
    ensures |ls| == if k > 1 then k else 1
    ensures forall i :: 0 <= i < |ls| ==> ls[i] < |g|
    ensures IsFirstMax(DeltaRow(g, 0), ls[0])
    ensures forall i :: 1 <= i < |ls| ==> IsFirstMax(Spread(g, ls[..i]), ls[i])
  {
    var d0 := Dijkstra(g, 0);
    var first := MaxElement(d0);
    ls := [first];
    while |ls| < k
      invariant 1 <= |ls| && (k > 1 ==> |ls| <= k) && (k <= 1 ==> |ls| == 1)
      invariant forall i :: 0 <= i < |ls| ==> ls[i] < |g|
      invariant ls[0] == first
      invariant forall i :: 1 <= i < |ls| ==> IsFirstMax(Spread(g, ls[..i]), ls[i])
      decreases k - |ls|
    {
      var dmin := seq(|g|, _ => Inf);
      assert dmin == Spread(g, ls[..0]);
      for j := 0 to |ls|
        invariant dmin == Spread(g, ls[..j])
      {
        assert ls[..j + 1] == ls[..j] + [ls[j]];
        dmin := FoldLandmark(g, ls[..j], ls[j], dmin);
      }
      assert ls[..|ls|] == ls;
      var next := MaxElement(dmin);
      ls := AppendLandmark(g, ls, next);
    }
  }

  /** Appending keeps the choices already made, and the new one is the first
      farthest vertex from all earlier ones. */
  method AppendLandmark(g: Graph, ls: seq<nat>, next: nat) returns (ls': seq<nat>)
    requires |ls| >= 1 && IsFirstMax(Spread(g, ls), next)
    requires forall i :: 1 <= i < |ls| ==> IsFirstMax(Spread(g, ls[..i]), ls[i])
    ensures ls' == ls + [next] && next < |g|
    ensures forall i :: 1 <= i < |ls'| ==> IsFirstMax(Spread(g, ls'[..i]), ls'[i])
  {
    ls' := ls + [next];
    forall i | 1 <= i < |ls'| ensures IsFirstMax(Spread(g, ls'[..i]), ls'[i]) {
      assert ls'[..i] == ls[..i] || i == |ls|;
      if i == |ls| {
        assert ls'[..i] == ls;
      } else {
        assert ls'[i] == ls[i];
      }
    }
  }

  /** A landmark is at distance 0 from the landmark set. */
  lemma {:induction false} NearestLandmark(g: Graph, ls: seq<nat>, j: nat)
    requires j < |ls|
    ensures Nearest(g, ls, ls[j]) == Fin(0)
    decreases |ls|
  {
    DeltaSelf(g, ls[j]);
    if j < |ls| - 1 {
      NearestLandmark(g, ls[..|ls| - 1], j);
    }
  }

  /** While some vertex is still away from every landmark, the next pick is
      not a landmark already: the selection only repeats a vertex once every
      vertex is a landmark or at distance 0 from one. */
  lemma NextIsFresh(g: Graph, ls: seq<nat>, next: nat, v: nat)
    requires IsFirstMax(Spread(g, ls), next)
    requires v < |g| && Spread(g, ls)[v] != Fin(0)
    ensures next !in ls
  {
    forall j | 0 <= j < |ls| ensures ls[j] != next {
      NearestLandmark(g, ls, j);
    }
  }

  /** `dist[i][v]` is the distance from landmark `ls[i]` to `v`. */
  ghost predicate TableOf(g: Graph, ls: seq<nat>, table: seq<seq<Dist>>) {
    && |table| == |ls|
    && (forall i :: 0 <= i < |ls| ==> |table[i]| == |g|)
    && forall i, x :: 0 <= i < |ls| && 0 <= x < |g| ==> table[i][x] == Delta(g, ls[i], x)
  }

  /** `preprocess_landmarks(G, L)`: one single-source run per landmark. */
  method PreprocessLandmarks(g: Graph, ls: seq<nat>) returns (table: seq<seq<Dist>>)
    requires WellFormed(g) && forall i :: 0 <= i < |ls| ==> ls[i] < |g|
    ensures TableOf(g, ls, table)
  {
    table := [];
    for i := 0 to |ls|
      invariant TableOf(g, ls[..i], table)
    {
      var d := Dijkstra(g, ls[i]);
      table := table + [d];
    }
    assert ls[..|ls|] == ls;
  }

  /** The `MultiALT` object: the landmark table and its column at the goal. */
  datatype MultiAlt = MultiAlt(table: seq<seq<Dist>>, distLt: seq<Dist>)

  /** The constructor: `distLt[i]` is `dist_from_L[i][t]`. */
  function MakeMultiAlt(table: seq<seq<Dist>>, t: nat): (h: MultiAlt)
    requires forall i :: 0 <= i < |table| ==> t < |table[i]|
    ensures h.table == table && |h.distLt| == |table|
    ensures forall i :: 0 <= i < |table| ==> h.distLt[i] == table[i][t]
  {
    MultiAlt(table, seq(|table|, i requires 0 <= i < |table| => table[i][t]))
  }

  /** Built from the landmark table, `MultiALT` holds each landmark's true
      distance to the goal, which is what the ALT bounds need. */
  lemma MultiAltGoalDistances(g: Graph, ls: seq<nat>, table: seq<seq<Dist>>, t: nat)
    requires TableOf(g, ls, table) && t < |g|
    ensures AltFor(g, ls, MakeMultiAlt(table, t), t)
    ensures forall i :: 0 <= i < |ls| ==> MakeMultiAlt(table, t).distLt[i] == Delta(g, ls[i], t)
  {
  }

  /** `fabs(dist_from_L[i][v] - distLt[i])` as it affects the maximum: NaN
      (both infinite) loses every comparison, so it counts as 0. */
  function Term(a: Dist, b: Dist): (r: Dist)
    ensures r.Inf? <==> a.Inf? != b.Inf?
    ensures a.Fin? && b.Fin? ==> r.Fin? && (a.n == b.n + r.n || b.n == a.n + r.n)
    ensures a.Inf? && b.Inf? ==> r == Fin(0)
  {
    if a.Fin? && b.Fin? then Fin(if a.n >= b.n then a.n - b.n else b.n - a.n)
    else if a.Inf? && b.Inf? then Fin(0)
    else Inf
  }

  ghost predicate Shaped(h: MultiAlt, n: nat) {
    |h.distLt| == |h.table| && forall i :: 0 <= i < |h.table| ==> |h.table[i]| == n
  }

  /** The loop of `operator()` over the first `k` landmarks: the largest term,
      and 0 when no term is positive. */
  function Best(h: MultiAlt, v: nat, k: nat): (r: Dist)
    requires |h.distLt| == |h.table| && k <= |h.table|
    requires forall i :: 0 <= i < |h.table| ==> v < |h.table[i]|
    ensures AtMost(Fin(0), r)
    ensures forall i :: 0 <= i < k ==> AtMost(Term(h.table[i][v], h.distLt[i]), r)
    ensures r == Fin(0) || exists i :: 0 <= i < k && r == Term(h.table[i][v], h.distLt[i])
    decreases k
  {
    if k == 0 then Fin(0)
    else Raise(Best(h, v, k - 1), Term(h.table[k - 1][v], h.distLt[k - 1]))
  }

  /** `if (val > best) best = val;` */
  function Raise(best: Dist, val: Dist): (r: Dist)
    ensures AtMost(best, r) && AtMost(val, r)
    ensures r == best || r == val
  {
    if !AtMost(val, best) then val else best
  }

  /** `operator()(v)`: the heuristic value of `v`. */
  function Eval(h: MultiAlt, v: nat): (r: Dist)
    requires |h.distLt| == |h.table| && forall i :: 0 <= i < |h.table| ==> v < |h.table[i]|
    ensures AtMost(Fin(0), r)
    ensures forall i :: 0 <= i < |h.table| ==> AtMost(Term(h.table[i][v], h.distLt[i]), r)
    ensures r == Fin(0) || exists i :: 0 <= i < |h.table| && r == Term(h.table[i][v], h.distLt[i])
  {
    Best(h, v, |h.table|)
  }

  /** The heuristic as an array over the `n` vertices, an infinite value
      read as 0 (`AltAdmissible` shows this never touches a vertex that can
      reach the goal). */
  function Potentials(h: MultiAlt, n: nat): (r: seq<nat>)
    requires Shaped(h, n)
    ensures |r| == n
  {
    seq(n, v requires 0 <= v < n => var e := Eval(h, v); if e.Fin? then e.n else 0)
  }

  /** `h` is the ALT heuristic of the landmarks `ls` for the goal `t`. */
  ghost predicate AltFor(g: Graph, ls: seq<nat>, h: MultiAlt, t: nat) {
    && t < |g| && TableOf(g, ls, h.table) && |h.distLt| == |ls|
    && forall i :: 0 <= i < |ls| ==> h.distLt[i] == h.table[i][t]
  }

  /** Going along an edge lengthens the distance from any source by at most its weight. */
  lemma DeltaStep(g: Graph, l: nat, u: nat, i: nat)
    requires u < |g| && i < |g[u]|
    ensures Delta(g, l, u).Fin? ==>
      Delta(g, l, g[u][i].to).Fin? && Delta(g, l, g[u][i].to).n <= Delta(g, l, u).n + g[u][i].w
  {
    if Delta(g, l, u).Fin? {
      var p :| IsWalk(g, l, p, u) && Cost(g, p) == Delta(g, l, u).n;
      WalkExtend(g, l, p, u, i);
      DeltaBelow(g, l, g[u][i].to, Delta(g, l, u).n + g[u][i].w);
    }
  }

  /** In an undirected graph the distances from a landmark to the two ends
      of an edge are both finite or both infinite, and differ by at most the
      edge's weight. */
  lemma LandmarkEdge(g: Graph, l: nat, u: nat, i: nat)
    requires WellFormed(g) && Symmetric(g) && u < |g| && i < |g[u]|
    ensures var v, w := g[u][i].to, g[u][i].w;
      && (Delta(g, l, u).Fin? <==> Delta(g, l, v).Fin?)
      && (Delta(g, l, u).Fin? ==> Delta(g, l, u).n <= Delta(g, l, v).n + w && Delta(g, l, v).n <= Delta(g, l, u).n + w)
  {
    var v, w := g[u][i].to, g[u][i].w;
    assert g[u][i] in g[u];
    assert Edge(u, w) in g[v];
    var j :| 0 <= j < |g[v]| && g[v][j] == Edge(u, w);
    DeltaStep(g, l, u, i);
    DeltaStep(g, l, v, j);
  }

  /** One landmark's term across an edge: infinite at both ends or at
      neither, and dropping by at most the weight (the triangle inequality). */
  lemma TermEdge(a: Dist, a': Dist, b: Dist, w: nat)
    requires (a.Fin? <==> a'.Fin?) && (a.Fin? ==> a.n <= a'.n + w && a'.n <= a.n + w)
    ensures EdgeBound(Term(a, b), Term(a', b), w)
  {
  }

  /** The value `x` at one end of an edge of weight `w` against the value `y`
      at the other: infinite at both or at neither, and `x <= w + y`. */
  predicate EdgeBound(x: Dist, y: Dist, w: nat) {
    (x.Inf? <==> y.Inf?) && (y.Fin? ==> x.n <= w + y.n)
  }

  /** Taking maxima at both ends keeps the bound. */
  lemma RaiseEdge(bu: Dist, bv: Dist, tu: Dist, tv: Dist, w: nat)
    requires EdgeBound(bu, bv, w) && EdgeBound(tu, tv, w)
    ensures EdgeBound(Raise(bu, tu), Raise(bv, tv), w)
  {
  }

  /** The maximum over the first `k` landmarks across an edge. */
  lemma {:induction false} BestEdge(g: Graph, ls: seq<nat>, h: MultiAlt, u: nat, i: nat, k: nat)
    requires WellFormed(g) && Symmetric(g) && TableOf(g, ls, h.table) && |h.distLt| == |h.table|
    requires u < |g| && i < |g[u]| && k <= |h.table|
    ensures EdgeBound(Best(h, u, k), Best(h, g[u][i].to, k), g[u][i].w)
    decreases k
  {
    if k > 0 {
      var v, w := g[u][i].to, g[u][i].w;
      BestEdge(g, ls, h, u, i, k - 1);
      LandmarkEdge(g, ls[k - 1], u, i);
      TermEdge(h.table[k - 1][u], h.table[k - 1][v], h.distLt[k - 1], w);
      RaiseEdge(Best(h, u, k - 1), Best(h, v, k - 1), Term(h.table[k - 1][u], h.distLt[k - 1]),
                Term(h.table[k - 1][v], h.distLt[k - 1]), w);
    }
  }

  /** On an undirected graph the ALT heuristic is consistent: it drops by at
      most an edge's weight along the edge. */
  lemma AltConsistent(g: Graph, ls: seq<nat>, h: MultiAlt)
    requires WellFormed(g) && Symmetric(g) && TableOf(g, ls, h.table) && |h.distLt| == |h.table|
    ensures Consistent(g, Potentials(h, |g|))
  {
    var r := Potentials(h, |g|);
    forall u, i | 0 <= u < |g| && 0 <= i < |g[u]| && g[u][i].to < |g|
      ensures r[u] <= g[u][i].w + r[g[u][i].to]
    {
      BestEdge(g, ls, h, u, i, |h.table|);
    }
  }

  /** The heuristic is 0 at the goal: every term there is `|d - d|` or NaN. */
  lemma GoalZero(h: MultiAlt, t: nat)
    requires |h.distLt| == |h.table| && forall i :: 0 <= i < |h.table| ==> t < |h.table[i]|
    requires forall i :: 0 <= i < |h.table| ==> h.distLt[i] == h.table[i][t]
    ensures Eval(h, t) == Fin(0)
  {
  }

  /** The heuristic is infinite at both ends of a walk or at neither. */
  lemma {:induction false} InfAlongWalk(g: Graph, ls: seq<nat>, h: MultiAlt, s: nat, p: seq<Hop>, v: nat)
    requires WellFormed(g) && Symmetric(g) && TableOf(g, ls, h.table) && |h.distLt| == |h.table|
    requires s < |g| && IsWalk(g, s, p, v)
    ensures v < |g| && (Eval(h, s).Inf? <==> Eval(h, v).Inf?)
    decreases |p|
  {
    if |p| > 0 {
      var last := p[|p| - 1];
      WalkSplit(g, s, p, v);
      InfAlongWalk(g, ls, h, s, p[..|p| - 1], last.from);
      BestEdge(g, ls, h, last.from, last.index, |h.table|);
    }
  }

  /** On an undirected graph the ALT heuristic never overestimates the
      distance to the goal, and it is finite at every vertex that can reach
      the goal. */
  lemma AltAdmissible(g: Graph, ls: seq<nat>, h: MultiAlt, t: nat)
    requires WellFormed(g) && Symmetric(g) && AltFor(g, ls, h, t)
    ensures Admissible(g, Potentials(h, |g|), t)
    ensures forall v :: 0 <= v < |g| && Reachable(g, v, t) ==> Eval(h, v).Fin?
  {
    AltConsistent(g, ls, h);
    GoalZero(h, t);
    ConsistentIsAdmissible(g, Potentials(h, |g|), t);
    forall v | 0 <= v < |g| && Reachable(g, v, t) ensures Eval(h, v).Fin? {
      var p :| IsWalk(g, v, p, t);
      InfAlongWalk(g, ls, h, v, p, t);
    }
  }

  /** When the goal is reachable from the start, every vertex the search can
      reach has a finite heuristic value, so the keys the search pushes are
      those of the program. */
  lemma AltFinite(g: Graph, ls: seq<nat>, h: MultiAlt, s: nat, t: nat)
    requires WellFormed(g) && Symmetric(g) && AltFor(g, ls, h, t) && s < |g| && Reachable(g, s, t)
    ensures forall v :: 0 <= v < |g| && Reachable(g, s, v) ==> Eval(h, v).Fin?
  {
    GoalZero(h, t);
    var q :| IsWalk(g, s, q, t);
    InfAlongWalk(g, ls, h, s, q, t);
    forall v | 0 <= v < |g| && Reachable(g, s, v) ensures Eval(h, v).Fin? {
      var p :| IsWalk(g, s, p, v);
      InfAlongWalk(g, ls, h, s, p, v);
    }
  }

  /** `astar_best(G, s, t, h)`: A* with priority `g + h(v)`, stopping when
      `t` is settled. Every label is the cost of a walk, `t`'s label is finite
      exactly when `t` is reachable, and with the ALT heuristic of an
      undirected graph it is the shortest distance. */
  method AStarBest(g: Graph, s: nat, t: nat, h: MultiAlt, ghost ls: seq<nat>) returns (gd: seq<Dist>, nodes: nat)
    requires WellFormed(g) && s < |g| && t < |g| && Shaped(h, |g|)
    ensures |gd| == |g| && gd[s] == Fin(0) && Achieved(g, s, gd)
    ensures gd[t].Fin? <==> Reachable(g, s, t)
    ensures Symmetric(g) && AltFor(g, ls, h, t) ==> gd[t] == Delta(g, s, t)
    ensures nodes <= |g|
  {
    var vis;
    gd, vis, nodes := LazySearch.Search(g, s, t, Potentials(h, |g|), 1, 1);
    if gd[t].Fin? {
      assert Reaches(g, s, t, gd[t].n);
    }
    if Symmetric(g) && AltFor(g, ls, h, t) {
      AltConsistent(g, ls, h);
      ExactWhenSettled(g, s, gd, vis, t);
    }
  }

  /** With the ALT heuristic of an undirected graph, `astar_best` labels `t`
      exactly as the plain `dijkstra` from `s` does. */
  method AgreesWithDijkstra(g: Graph, s: nat, t: nat, h: MultiAlt, ghost ls: seq<nat>)
    returns (a: seq<Dist>, d: seq<Dist>)
    requires WellFormed(g) && Symmetric(g) && s < |g| && t < |g| && Shaped(h, |g|) && AltFor(g, ls, h, t)
    ensures |a| == |d| == |g| && a[t] == d[t]
  {
    var nodes;
    a, nodes := AStarBest(g, s, t, h, ls);
    d := Dijkstra(g, s);
  }

  /** `main` with the file and the clocks taken out: the undirected graph of
      the triples, eight landmarks, the table, and A* from 0 to the last vertex. */
  method AltProgram(n: nat, es: seq<Triple>) returns (g: Graph, ls: seq<nat>, d: seq<Dist>)
    requires TriplesIn(n, es) && n > 0
    ensures |g| == n && Symmetric(g) && forall u :: 0 <= u < n ==> g[u] == Incident(es, u)
    ensures |ls| == 8 && forall i :: 0 <= i < 8 ==> ls[i] < n
    ensures |d| == n && d[n - 1] == Delta(g, 0, n - 1)
  {
    g := BuildUndirected(n, es);
    UndirectedSymmetric(n, es, g);
    ls := PickLandmarks(g, 8);
    var table := PreprocessLandmarks(g, ls);
    var h := MakeMultiAlt(table, n - 1);
    var nodes;
    d, nodes := AStarBest(g, 0, n - 1, h, ls);
  }
}
