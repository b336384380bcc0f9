/**
  Frontier entries and the lazy frontier: a `std::priority_queue` of
  `(key, vertex)` pairs ordered by `std::greater`, so `top` is the
  lexicographically least pair. Duplicates (stale entries) are allowed.
 */
module PriorityQueue {

  /** A frontier entry `(key, vertex)`. */
  datatype Entry = Entry(key: nat, vertex: nat)

  /** The `std::pair` order on entries: by key, then by vertex. */
  predicate EntryLe(a: Entry, b: Entry) {
    a.key < b.key || (a.key == b.key && a.vertex <= b.vertex)
  }

  /** `top()` followed by `pop()`: removes one least entry and returns it. */
  method PopMin(pq: seq<Entry>) returns (e: Entry, rest: seq<Entry>)
    requires |pq| > 0
    ensures e in pq
    ensures forall x :: x in pq ==> EntryLe(e, x)
    ensures multiset(rest) == multiset(pq) - multiset{e}
    ensures |rest| == |pq| - 1
    ensures forall x :: x in rest ==> x in pq
    ensures forall x :: x in pq && x != e ==> x in rest
  {
    var best := 0;
    var i := 1;
    while i < |pq|
      invariant 1 <= i <= |pq| && best < i
      invariant forall j :: 0 <= j < i ==> EntryLe(pq[best], pq[j])
    {
      if !EntryLe(pq[best], pq[i]) {
        best := i;
      }
      i := i + 1;
    }
    e := pq[best];
    rest := pq[..best] + pq[best + 1..];
    assert pq == pq[..best] + [e] + pq[best + 1..];
    forall x | x in pq && x != e ensures x in rest {
      var j :| 0 <= j < |pq| && pq[j] == x;
      if j < best {
        assert rest[j] == x;
      } else {
        assert j > best && rest[j - 1] == x;
      }
    }
  }
}
