/**
  The Fibonacci heap of dijkstra/dijk_Fib.cpp, as the keyed priority map its
  interface presents: one node per vertex, keyed by `(key, vertex)` pairs
  under `std::greater`, so `top` is the lexicographically least pair. The
  heap's internal structure (a foreign library) is not modelled.
 */
module KeyedQueue {
  import opened PriorityQueue

  /** The queue's nodes: vertex -> key. */
  type Queue = map<nat, nat>

  /** `e` is a node of `q` and no node of `q` is smaller. */
  predicate Least(q: Queue, e: Entry) {
    e.vertex in q && q[e.vertex] == e.key && forall v :: v in q ==> EntryLe(e, Entry(q[v], v))
  }

  /** A non-empty queue has a least node. */
  lemma {:induction false} LeastExists(q: Queue)
    requires |q| > 0
    ensures exists e: Entry :: Least(q, e)
    decreases |q|
  {
    var v0 :| v0 in q;
    var rest := q - {v0};
    assert |rest| == |q| - 1;
    if |rest| == 0 {
      assert Least(q, Entry(q[v0], v0)) by {
        forall v | v in q ensures v == v0 {
          assert v !in rest;
        }
      }
    } else {
      LeastExists(rest);
      var e: Entry :| Least(rest, e);
      var m := if EntryLe(e, Entry(q[v0], v0)) then e else Entry(q[v0], v0);
      LeastAdd(q, v0, e, m);
    }
  }

  /** The least of `q - {v0}`'s least node and `v0`'s node is least in `q`. */
  lemma LeastAdd(q: Queue, v0: nat, e: Entry, m: Entry)
    requires v0 in q && Least(q - {v0}, e)
    requires m == if EntryLe(e, Entry(q[v0], v0)) then e else Entry(q[v0], v0)
    ensures Least(q, m)
  {
    forall v | v in q ensures EntryLe(m, Entry(q[v], v)) {
      if v != v0 {
        assert v in q - {v0} && EntryLe(e, Entry(q[v], v));
      }
    }
  }

  /** `top()`: the least `(key, vertex)` node. */
  function Top(q: Queue): (e: Entry)
    requires |q| > 0
    ensures e.vertex in q && q[e.vertex] == e.key
    ensures forall v :: v in q ==> EntryLe(e, Entry(q[v], v))
  {
    LeastExists(q);
    var e: Entry :| Least(q, e);
    e
  }

  /** `push({k, v})` for a vertex without a node adds exactly one node. */
  function Push(q: Queue, v: nat, k: nat): (q': Queue)
    requires v !in q
    ensures |q'| == |q| + 1 && v in q' && q'[v] == k
    ensures forall x :: x != v ==> (x in q' <==> x in q) && (x in q ==> q'[x] == q[x])
  {
    q[v := k]
  }

  /** `update(handle, {k, v})`: the node of `v` now has key `k`. */
  function Update(q: Queue, v: nat, k: nat): (q': Queue)
    requires v in q
    ensures |q'| == |q| && v in q' && q'[v] == k
    ensures forall x :: x != v ==> (x in q' <==> x in q) && (x in q ==> q'[x] == q[x])
  {
    q[v := k]
  }

  /** `pop()`: removes the top node and nothing else. */
  function Pop(q: Queue): (q': Queue)
    requires |q| > 0
    ensures |q'| == |q| - 1 && Top(q).vertex !in q'
    ensures forall x :: x != Top(q).vertex ==> (x in q' <==> x in q) && (x in q ==> q'[x] == q[x])
  {
    q - {Top(q).vertex}
  }
}
