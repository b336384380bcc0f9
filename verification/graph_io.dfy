/**
  The adjacency-list construction of `read_graph` (the edge-insertion logic,
  not the stream) and the predecessor walk of `reconstruct_path`.
 */
module GraphIO {
  import opened Graphs

  /** One input line `u v w`. */
  datatype Triple = Triple(u: nat, v: nat, w: nat)

  /** Both endpoints of every triple are vertices of an `n`-vertex graph. */
  predicate TriplesIn(n: nat, es: seq<Triple>) {
    forall k :: 0 <= k < |es| ==> es[k].u < n && es[k].v < n
  }

  /** Some triple `u v w` lists the edge `e = (v, w)` out of `u`. */
  ghost predicate Forward(es: seq<Triple>, u: nat, e: Edge) {
    exists k :: 0 <= k < |es| && es[k].u == u && e == Edge(es[k].v, es[k].w)
  }

  /** Some triple `v u w` lists the edge `e = (v, w)` out of `u` read backwards. */
  ghost predicate Backward(es: seq<Triple>, u: nat, e: Edge) {
    exists k :: 0 <= k < |es| && es[k].v == u && e == Edge(es[k].u, es[k].w)
  }

  /** The adjacency list of `u` as the input lists it, in input order: for
      each triple, its forward edge if it starts at `u`, then its backward
      edge if it ends at `u` (both, for a loop `u u w`). */
  function Incident(es: seq<Triple>, u: nat): seq<Edge>
    decreases |es|
  {
    if |es| == 0 then []
    else
      var t := es[|es| - 1];
      Incident(es[..|es| - 1], u)
      + (if t.u == u then [Edge(t.v, t.w)] else [])
      + (if t.v == u then [Edge(t.u, t.w)] else [])
  }

  /** The directed variant: only forward edges. */
  function Outgoing(es: seq<Triple>, u: nat): seq<Edge>
    decreases |es|
  {
    if |es| == 0 then []
    else
      var t := es[|es| - 1];
      Outgoing(es[..|es| - 1], u) + (if t.u == u then [Edge(t.v, t.w)] else [])
  }

  lemma {:induction false} IncidentMembers(es: seq<Triple>, u: nat)
    ensures forall e :: e in Incident(es, u) <==> Forward(es, u, e) || Backward(es, u, e)
    decreases |es|
  {
    if |es| > 0 {
      var es0, t := es[..|es| - 1], es[|es| - 1];
      IncidentMembers(es0, u);
      forall e ensures e in Incident(es, u) <==> Forward(es, u, e) || Backward(es, u, e) {
        if Forward(es, u, e) {
          var k :| 0 <= k < |es| && es[k].u == u && e == Edge(es[k].v, es[k].w);
          if k < |es0| { assert es0[k] == es[k]; }
        }
        if Backward(es, u, e) {
          var k :| 0 <= k < |es| && es[k].v == u && e == Edge(es[k].u, es[k].w);
          if k < |es0| { assert es0[k] == es[k]; }
        }
        if Forward(es0, u, e) {
          var k :| 0 <= k < |es0| && es0[k].u == u && e == Edge(es0[k].v, es0[k].w);
          assert es[k] == es0[k];
        }
        if Backward(es0, u, e) {
          var k :| 0 <= k < |es0| && es0[k].v == u && e == Edge(es0[k].u, es0[k].w);
          assert es[k] == es0[k];
        }
        assert t == es[|es| - 1];
      }
    }
  }

  lemma {:induction false} OutgoingMembers(es: seq<Triple>, u: nat)
    ensures forall e :: e in Outgoing(es, u) <==> Forward(es, u, e)
    decreases |es|
  {
    if |es| > 0 {
      var es0, t := es[..|es| - 1], es[|es| - 1];
      OutgoingMembers(es0, u);
      forall e ensures e in Outgoing(es, u) <==> Forward(es, u, e) {
        if Forward(es, u, e) {
          var k :| 0 <= k < |es| && es[k].u == u && e == Edge(es[k].v, es[k].w);
          if k < |es0| { assert es0[k] == es[k]; }
        }
        if Forward(es0, u, e) {
          var k :| 0 <= k < |es0| && es0[k].u == u && e == Edge(es0[k].v, es0[k].w);
          assert es[k] == es0[k];
        }
        assert t == es[|es| - 1];
      }
    }
  }

  lemma {:induction false} TotalSizeEmpty(n: nat)
    ensures TotalSize(seq(n, _ => [])) == 0
  {
    if n > 0 {
      var g: Graph := seq(n, _ => []);
      assert g[..n - 1] == seq(n - 1, _ => []);
      TotalSizeEmpty(n - 1);
    }
  }

  /** Appending one edge to one list grows the total size by one. */
  lemma {:induction false} TotalSizeAppend(g: Graph, u: nat, e: Edge)
    requires u < |g|
    ensures TotalSize(g[u := g[u] + [e]]) == TotalSize(g) + 1
    decreases |g|
  {
    var g' := g[u := g[u] + [e]];
    assert g'[..|g| - 1] == if u < |g| - 1 then g[..|g| - 1][u := g[u] + [e]] else g[..|g| - 1];
    if u < |g| - 1 {
      TotalSizeAppend(g[..|g| - 1], u, e);
    }
  }

  /** The loop of `read_graph` on an undirected input: every triple `u v w`
      appends `(v, w)` to `G[u]` and then `(u, w)` to `G[v]`. */
  method BuildUndirected(n: nat, es: seq<Triple>) returns (g: Graph)
    requires TriplesIn(n, es)
    ensures |g| == n && forall u :: 0 <= u < n ==> g[u] == Incident(es, u)
    ensures TotalSize(g) == 2 * |es|
  {
    g := seq(n, _ => []);
    TotalSizeEmpty(n);
    for i := 0 to |es|
      invariant |g| == n && forall u :: 0 <= u < n ==> g[u] == Incident(es[..i], u)
      invariant TotalSize(g) == 2 * i
    {
      var t := es[i];
      assert es[..i + 1][..i] == es[..i] && es[..i + 1][i] == t;
      TotalSizeAppend(g, t.u, Edge(t.v, t.w));
      g := g[t.u := g[t.u] + [Edge(t.v, t.w)]];
      TotalSizeAppend(g, t.v, Edge(t.u, t.w));
      g := g[t.v := g[t.v] + [Edge(t.u, t.w)]];
    }
    assert es[..|es|] == es;
  }

  /** The construction in `Dijkstra_generated.cpp`: every triple `u v w`
      appends `(v, w)` to `adj[u]` only. */
  method BuildDirected(n: nat, es: seq<Triple>) returns (g: Graph)
    requires TriplesIn(n, es)
    ensures |g| == n && forall u :: 0 <= u < n ==> g[u] == Outgoing(es, u)
    ensures TotalSize(g) == |es|
  {
    g := seq(n, _ => []);
    TotalSizeEmpty(n);
    for i := 0 to |es|
      invariant |g| == n && forall u :: 0 <= u < n ==> g[u] == Outgoing(es[..i], u)
      invariant TotalSize(g) == i
    {
      var t := es[i];
      assert es[..i + 1][..i] == es[..i] && es[..i + 1][i] == t;
      TotalSizeAppend(g, t.u, Edge(t.v, t.w));
      g := g[t.u := g[t.u] + [Edge(t.v, t.w)]];
    }
    assert es[..|es|] == es;
  }

  /** An undirected build lists exactly the input edges in both directions,
      so it is well formed and symmetric. */
  lemma UndirectedSymmetric(n: nat, es: seq<Triple>, g: Graph)
    requires TriplesIn(n, es)
    requires |g| == n && forall u :: 0 <= u < n ==> g[u] == Incident(es, u)
    ensures forall u, e :: 0 <= u < n ==> (e in g[u] <==> Forward(es, u, e) || Backward(es, u, e))
    ensures WellFormed(g) && Symmetric(g)
  {
    forall u | 0 <= u < n ensures forall e :: e in g[u] <==> Forward(es, u, e) || Backward(es, u, e) {
      IncidentMembers(es, u);
    }
    forall u, e | 0 <= u < n && e in g[u] ensures e.to < n && Edge(u, e.w) in g[e.to] {
      if Forward(es, u, e) {
        var k :| 0 <= k < |es| && es[k].u == u && e == Edge(es[k].v, es[k].w);
        assert Backward(es, e.to, Edge(u, e.w));
      } else {
        var k :| 0 <= k < |es| && es[k].v == u && e == Edge(es[k].u, es[k].w);
        assert Forward(es, e.to, Edge(u, e.w));
      }
    }
    forall u, i | 0 <= u < |g| && 0 <= i < |g[u]| ensures g[u][i].to < |g| {
      assert g[u][i] in g[u];
    }
  }

  /** A directed build lists exactly the input edges, forwards only. */
  lemma DirectedMembers(n: nat, es: seq<Triple>, g: Graph)
    requires TriplesIn(n, es)
    requires |g| == n && forall u :: 0 <= u < n ==> g[u] == Outgoing(es, u)
    ensures forall u, e :: 0 <= u < n ==> (e in g[u] <==> Forward(es, u, e))
    ensures WellFormed(g)
  {
    forall u | 0 <= u < n ensures forall e :: e in g[u] <==> Forward(es, u, e) {
      OutgoingMembers(es, u);
    }
    forall u, i | 0 <= u < |g| && 0 <= i < |g[u]| ensures g[u][i].to < |g| {
      assert g[u][i] in g[u];
    }
  }

  /** `prev` names -1 or a vertex for every vertex, and strictly lowers a
      rank at every step, so following it always stops (it has no cycle). */
  ghost predicate PrevRanked(prev: seq<int>, rank: seq<nat>) {
    && |rank| == |prev|
    && forall v {:trigger prev[v]} :: 0 <= v < |prev| ==>
         -1 <= prev[v] < |prev| && (prev[v] != -1 ==> rank[prev[v]] < rank[v])
  }

  function Reverse<T>(s: seq<T>): (r: seq<T>)
    ensures |r| == |s| && forall i :: 0 <= i < |s| ==> r[i] == s[|s| - 1 - i]
    decreases |s|
  {
    if |s| == 0 then [] else [s[|s| - 1]] + Reverse(s[..|s| - 1])
  }

  /** Distinct values below `n` number at most `n`. */
  lemma {:induction false} SetBelow(S: set<nat>, n: nat)
    requires forall x :: x in S ==> x < n
    ensures |S| <= n
    decreases n
  {
    if n > 0 {
      SetBelow(S - {n - 1}, n - 1);
    }
  }

  function Elems(s: seq<nat>): set<nat> {
    set x | x in s
  }

  /** A sequence without repetitions has as many elements as its set. */
  lemma {:induction false} DistinctCard(s: seq<nat>)
    requires forall i, j :: 0 <= i < j < |s| ==> s[i] != s[j]
    ensures |Elems(s)| == |s|
    decreases |s|
  {
    if |s| > 0 {
      var s0, last := s[..|s| - 1], s[|s| - 1];
      DistinctCard(s0);
      ElemsSnoc(s0, last);
      assert s == s0 + [last];
      forall i | 0 <= i < |s0| ensures s0[i] != last {
        assert s0[i] == s[i];
      }
    }
  }

  lemma ElemsSnoc(s: seq<nat>, x: nat)
    ensures Elems(s + [x]) == Elems(s) + {x}
    ensures (forall i :: 0 <= i < |s| ==> s[i] != x) ==> x !in Elems(s)
  {
    forall y ensures y in Elems(s + [x]) <==> y in Elems(s) || y == x {
      if y in Elems(s) {
        var i :| 0 <= i < |s| && s[i] == y;
        assert (s + [x])[i] == y;
      }
      if y in Elems(s + [x]) && y != x {
        var i :| 0 <= i < |s + [x]| && (s + [x])[i] == y;
        assert s[i] == y;
      }
    }
  }

  /** The loop of `reconstruct_path`: the `prev` chain from `target` back to
      the vertex whose `prev` is -1, in the order it is walked. */
  method FollowPrev(prev: seq<int>, target: nat, ghost rank: seq<nat>) returns (back: seq<nat>)
    requires target < |prev| && PrevRanked(prev, rank)
    ensures |back| >= 1 && back[0] == target
    ensures forall i :: 0 <= i < |back| ==> back[i] < |prev|
    ensures prev[back[|back| - 1]] == -1
    ensures forall i :: 0 < i < |back| ==> back[i] == prev[back[i - 1]]
    ensures forall i, j :: 0 <= i < j < |back| ==> rank[back[j]] < rank[back[i]]
  {
    back := [target];
    var at := prev[target];
    while at != -1
      invariant -1 <= at < |prev|
      invariant |back| >= 1 && back[0] == target
      invariant forall i :: 0 <= i < |back| ==> back[i] < |prev|
      invariant at == prev[back[|back| - 1]]
      invariant forall i :: 0 < i < |back| ==> back[i] == prev[back[i - 1]]
      invariant forall i, j :: 0 <= i < j < |back| ==> rank[back[j]] < rank[back[i]]
      invariant at != -1 ==> rank[at] < rank[back[|back| - 1]]
      decreases if at == -1 then 0 else rank[at] + 1
    {
      back := back + [at];
      at := prev[at];
    }
  }

  /** `reconstruct_path`: follow `prev` from `target` until -1, then reverse. */
  method ReconstructPath(prev: seq<int>, target: nat, ghost rank: seq<nat>) returns (path: seq<nat>)
    requires target < |prev| && PrevRanked(prev, rank)
    ensures |path| >= 1 && path[|path| - 1] == target
    ensures forall i :: 0 <= i < |path| ==> path[i] < |prev|
    ensures forall i :: 0 <= i < |path| - 1 ==> path[i] == prev[path[i + 1]]
    ensures prev[path[0]] == -1
    ensures forall i, j :: 0 <= i < j < |path| ==> path[i] != path[j]
    ensures |path| <= |prev|
    ensures prev[target] == -1 ==> path == [target]
  {
    var back := FollowPrev(prev, target, rank);
    assert |back| > 1 ==> back[1] == prev[back[0]];
    path := Reverse(back);
    forall i | 0 <= i < |path| - 1 ensures path[i] == prev[path[i + 1]] {
      assert back[|back| - 1 - i] == prev[back[|back| - 1 - (i + 1)]];
    }
    forall i, j | 0 <= i < j < |path| ensures path[i] != path[j] {
      assert rank[back[|back| - 1 - j]] > rank[back[|back| - 1 - i]];
    }
    DistinctCard(path);
    SetBelow(Elems(path), |prev|);
  }

  /** The consecutive pairs of a path. */
  function Pairs(path: seq<nat>): seq<(nat, nat)> {
    if |path| == 0 then [] else seq(|path| - 1, k requires 0 <= k < |path| - 1 => (path[k], path[k + 1]))
  }

  /** The loop that writes a path as pairs: the first vertex becomes `u`;
      each later vertex `v` is written as `(u, v)` and becomes the new `u`. */
  method WritePairs(path: seq<nat>) returns (pairs: seq<(nat, nat)>)
    requires |path| >= 1
    ensures |pairs| == |path| - 1
    ensures forall k :: 0 <= k < |pairs| ==> pairs[k] == (path[k], path[k + 1])
    ensures pairs == Pairs(path)
  {
    var u := path[0];
    pairs := [];
    var k := 1;
    while k < |path|
      invariant 1 <= k <= |path| && u == path[k - 1]
      invariant |pairs| == k - 1
      invariant forall j :: 0 <= j < k - 1 ==> pairs[j] == (path[j], path[j + 1])
    {
      var v := path[k];
      pairs := pairs + [(u, v)];
      u := v;
      k := k + 1;
    }
  }
}
