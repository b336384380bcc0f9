/** The demonstration graph that the `main` of dijk_decKey.cpp and of
    dijk_Fib.cpp both run from vertex 0, with the distance each prints. */
module Demo {
  import opened Graphs
  import DijkDecKey
  import DijkFib

  /** Four vertices; edges 0->1 (1), 0->2 (4), 1->2 (2), 1->3 (5), 2->3 (1). */
  function DemoGraph(): (g: Graph)
    ensures |g| == 4 && WellFormed(g)
  {
    [[Edge(1, 1), Edge(2, 4)], [Edge(2, 2), Edge(3, 5)], [Edge(3, 1)], []]
  }

  /** The labels the demo prints for each vertex. */
  function DemoLabels(): seq<Dist> {
    [Fin(0), Fin(1), Fin(3), Fin(4)]
  }

  /** No edge leaves a label below its end's label minus the weight. */
  lemma DemoFeasible()
    ensures Feasible(DemoGraph(), DemoLabels())
  {
  }

  /** The walk 0 -> 1 -> 2 -> 3 and its prefixes achieve the labels. */
  lemma DemoWalks() returns (ps: seq<seq<Hop>>)
    ensures |ps| == 4
    ensures forall v :: 0 <= v < 4 ==>
      IsWalk(DemoGraph(), 0, ps[v], v) && DemoLabels()[v] == Fin(Cost(DemoGraph(), ps[v]))
  {
    var g := DemoGraph();
    var p0: seq<Hop> := [];
    WalkExtend(g, 0, p0, 0, 0);
    var p1 := p0 + [Hop(0, 0)];
    WalkExtend(g, 0, p1, 1, 0);
    var p2 := p1 + [Hop(1, 0)];
    WalkExtend(g, 0, p2, 2, 0);
    ps := [p0, p1, p2, p2 + [Hop(2, 0)]];
  }

  /** The distances from 0 are 0, 1, 3 and 4: each is the cost of a walk,
      and no walk is cheaper, since the labels form a feasible potential. */
  lemma DemoDistances()
    ensures forall v :: 0 <= v < 4 ==> Delta(DemoGraph(), 0, v) == DemoLabels()[v]
  {
    DemoFeasible();
    var ps := DemoWalks();
    forall v | 0 <= v < 4 ensures Delta(DemoGraph(), 0, v) == DemoLabels()[v] {
      ExactByPotential(DemoGraph(), DemoLabels(), 0, ps[v], v);
    }
  }

  /** A walk whose cost equals a feasible potential's value at its end is a shortest walk. */
  lemma ExactByPotential(g: Graph, d: seq<Dist>, s: nat, p: seq<Hop>, v: nat)
    requires Feasible(g, d) && s < |g| && d[s] == Fin(0)
    requires IsWalk(g, s, p, v) && v < |d| && d[v] == Fin(Cost(g, p))
    ensures Delta(g, s, v) == d[v]
  {
    forall q | IsWalk(g, s, q, v) ensures d[v].n <= Cost(g, q) {
      FeasibleBound(g, d, s, q, v);
    }
    ShortestIsDelta(g, s, v, d[v]);
  }

  /** `dijkstra_dec_key(G, 0)` labels vertex 3 with 4, and the Fibonacci-heap
      version `dijkstra_fib(G, 0)` returns the very same vector. */
  method DemoRuns() returns (a: seq<Dist>, b: seq<Dist>)
    ensures a == b == DemoLabels()
    ensures a[3] == Fin(4)
  {
    var g := DemoGraph();
    a := DijkDecKey.DijkstraDecKey(g, 0, -1);
    b := DijkFib.DijkstraFib(g, 0, -1);
    DemoDistances();
    assert a == DemoLabels();
  }
}
