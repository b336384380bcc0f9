/**
  `MinBinaryHeap` of dijkstra/dijk_decKey.cpp: an array heap of
  `(key, vertex)` entries together with `pos`, the vertex -> slot index
  (-1 for an absent vertex) that makes decrease-key possible.

  The heap is a value here: every operation takes the old state and returns
  the new one.
 */
module BinaryHeap {
  import opened PriorityQueue

  datatype Heap = Heap(h: seq<Entry>, pos: seq<int>)

  function Parent(i: nat): nat
    requires i > 0
  {
    (i - 1) / 2
  }

  /** Every entry's key is at least its parent's. */
  ghost predicate HeapOrder(h: seq<Entry>) {
    forall i :: 0 < i < |h| ==> h[Parent(i)].key <= h[i].key
  }

  /** Every slot's vertex is indexed, and the index points back to that slot
      (so no vertex occupies two slots). */
  ghost predicate SlotsIndexed(h: seq<Entry>, pos: seq<int>) {
    forall i :: 0 <= i < |h| ==> h[i].vertex < |pos| && pos[h[i].vertex] == i
  }

  /** Every index entry is -1 or a slot that holds that vertex. */
  ghost predicate PosSound(h: seq<Entry>, pos: seq<int>) {
    forall v :: 0 <= v < |pos| ==> -1 <= pos[v] < |h| && (pos[v] != -1 ==> h[pos[v]].vertex == v)
  }

  /** Heap order, and `pos` is the inverse of the slot -> vertex map. */
  ghost predicate Valid(hp: Heap) {
    HeapOrder(hp.h) && SlotsIndexed(hp.h, hp.pos) && PosSound(hp.h, hp.pos)
  }

  ghost function VertexSet(h: seq<Entry>): set<nat> {
    set e | e in h :: e.vertex
  }

  /** The heap seen as a keyed map: each present vertex and its key. */
  ghost function View(hp: Heap): map<nat, nat> {
    map v: nat | v < |hp.pos| && 0 <= hp.pos[v] < |hp.h| :: hp.h[hp.pos[v]].key
  }

  /** `MinBinaryHeap(N)`: no entries, every vertex absent. */
  function Empty(n: nat): (hp: Heap)
    ensures Valid(hp) && |hp.pos| == n && |hp.h| == 0
    ensures View(hp) == map[]
  {
    Heap([], seq(n, _ => -1))
  }

  /** In a valid heap, `v` maps to `k` exactly when the entry `(k, v)` is stored. */
  lemma ViewEntry(hp: Heap, v: nat, k: nat)
    requires Valid(hp)
    ensures (v in View(hp) && View(hp)[v] == k) <==> Entry(k, v) in hp.h
  {
    if Entry(k, v) in hp.h {
      var i :| 0 <= i < |hp.h| && hp.h[i] == Entry(k, v);
      assert hp.pos[v] == i;
    }
  }

  /** Two valid heaps with the same entries have the same view. */
  lemma ViewByEntries(a: Heap, b: Heap, extra: map<nat, nat>)
    requires Valid(a) && Valid(b)
    requires forall v, k :: Entry(k, v) in b.h <==> (v in extra && extra[v] == k)
    ensures View(b) == extra
  {
    forall v | true ensures (v in View(b)) == (v in extra) {
      if v in View(b) {
        ViewEntry(b, v, View(b)[v]);
      }
      if v in extra {
        ViewEntry(b, v, extra[v]);
      }
    }
    forall v | v in View(b) ensures View(b)[v] == extra[v] {
      ViewEntry(b, v, View(b)[v]);
    }
  }

  lemma SlotsDistinct(h: seq<Entry>, pos: seq<int>, i: nat, j: nat)
    requires SlotsIndexed(h, pos) && i < |h| && j < |h| && i != j
    ensures h[i].vertex != h[j].vertex
  {
  }

  lemma {:induction false} RootIsMin(h: seq<Entry>, j: nat)
    requires HeapOrder(h) && j < |h|
    ensures h[0].key <= h[j].key
    decreases j
  {
    if j > 0 {
      RootIsMin(h, Parent(j));
    }
  }

  lemma ChildOf(i: nat, j: nat)
    requires j > 0
    ensures Parent(j) == i <==> (j == 2 * i + 1 || j == 2 * i + 2)
  {
  }

  lemma VertexSetOfMultiset(a: seq<Entry>, b: seq<Entry>)
    requires multiset(a) == multiset(b)
    ensures VertexSet(a) == VertexSet(b)
  {
    forall x | x in VertexSet(a) ensures x in VertexSet(b) {
      var e :| e in a && e.vertex == x;
      assert e in multiset(b);
    }
    forall x | x in VertexSet(b) ensures x in VertexSet(a) {
      var e :| e in b && e.vertex == x;
      assert e in multiset(a);
    }
  }

  /** In a valid heap a vertex that occupies no slot is indexed -1. */
  lemma AbsentIsMinusOne(hp: Heap, x: nat)
    requires Valid(hp) && x < |hp.pos| && x !in VertexSet(hp.h)
    ensures hp.pos[x] == -1
  {
    forall j | 0 <= j < |hp.h| ensures hp.h[j].vertex != x {
      assert hp.h[j] in hp.h;
    }
  }

  /** A heap-ordered array indexed slot by slot, whose absent vertices are
      indexed -1, is a valid heap. */
  lemma FinishValid(h: seq<Entry>, pos: seq<int>)
    requires HeapOrder(h) && SlotsIndexed(h, pos)
    requires forall x :: 0 <= x < |pos| && x !in VertexSet(h) ==> pos[x] == -1
    ensures Valid(Heap(h, pos))
  {
    forall x | 0 <= x < |pos| ensures -1 <= pos[x] < |h| && (pos[x] != -1 ==> h[pos[x]].vertex == x) {
      if x in VertexSet(h) {
        var e :| e in h && e.vertex == x;
        var j :| 0 <= j < |h| && h[j] == e;
      }
    }
  }

  /** The heap order, except possibly between slot i and its parent; and i's
      parent is no larger than i's children. */
  ghost predicate OrderedBelow(h: seq<Entry>, i: nat) {
    && (forall j :: 0 < j < |h| && j != i ==> h[Parent(j)].key <= h[j].key)
    && (forall j :: 0 < j < |h| && i > 0 && Parent(j) == i ==> h[Parent(i)].key <= h[j].key)
  }

  /** The heap order, except possibly between slot i and its children; and i's
      parent is no larger than i's children. */
  ghost predicate OrderedAbove(h: seq<Entry>, i: nat) {
    && (forall j :: 0 < j < |h| && Parent(j) != i ==> h[Parent(j)].key <= h[j].key)
    && (forall j :: 0 < j < |h| && i > 0 && Parent(j) == i ==> h[Parent(i)].key <= h[j].key)
  }

  /** `pos` differs from `pos0` only at vertices of `vs`. */
  ghost predicate SameOutside(pos: seq<int>, pos0: seq<int>, vs: set<nat>) {
    |pos| == |pos0| && forall v :: 0 <= v < |pos| && v !in vs ==> pos[v] == pos0[v]
  }

  /** `swap(h[i], h[j])` followed by re-indexing both moved vertices. */
  function Swap(hp: Heap, i: nat, j: nat): (r: Heap)
    requires i < |hp.h| && j < |hp.h|
    requires forall k :: 0 <= k < |hp.h| ==> hp.h[k].vertex < |hp.pos|
    ensures |r.h| == |hp.h| && |r.pos| == |hp.pos|
    ensures r.h[i] == hp.h[j] && r.h[j] == hp.h[i]
    ensures forall k :: 0 <= k < |hp.h| && k != i && k != j ==> r.h[k] == hp.h[k]
    ensures multiset(r.h) == multiset(hp.h)
    ensures r.pos[hp.h[i].vertex] == j
    ensures hp.h[i].vertex != hp.h[j].vertex ==> r.pos[hp.h[j].vertex] == i
    ensures forall x :: 0 <= x < |hp.pos| && x != hp.h[i].vertex && x != hp.h[j].vertex ==> r.pos[x] == hp.pos[x]
  {
    var h := hp.h[i := hp.h[j]][j := hp.h[i]];
    Heap(h, hp.pos[h[i].vertex := i][h[j].vertex := j])
  }

  lemma SwapIndexed(hp: Heap, i: nat, j: nat, h0: seq<Entry>, pos0: seq<int>)
    requires i < |hp.h| && j < |hp.h| && i != j
    requires SlotsIndexed(hp.h, hp.pos)
    requires multiset(hp.h) == multiset(h0)
    requires SameOutside(hp.pos, pos0, VertexSet(h0))
    ensures var r := Swap(hp, i, j);
      && |r.h| == |hp.h|
      && r.h == hp.h[i := hp.h[j]][j := hp.h[i]]
      && SlotsIndexed(r.h, r.pos)
      && multiset(r.h) == multiset(h0)
      && SameOutside(r.pos, pos0, VertexSet(h0))
  {
    SlotsDistinct(hp.h, hp.pos, i, j);
    assert hp.h[i] in multiset(h0) && hp.h[j] in multiset(h0);
    assert hp.h[i].vertex in VertexSet(h0) && hp.h[j].vertex in VertexSet(h0);
  }

  lemma SiftUpStep(h: seq<Entry>, i: nat)
    requires i < |h| && i > 0 && OrderedBelow(h, i) && h[i].key < h[Parent(i)].key
    ensures OrderedBelow(h[i := h[Parent(i)]][Parent(i) := h[i]], Parent(i))
  {
    var p := Parent(i);
    var h' := h[i := h[p]][p := h[i]];
    forall j | 0 < j < |h'| && j != p ensures h'[Parent(j)].key <= h'[j].key {
      if j == i {
      } else if Parent(j) == i {
        assert h[Parent(i)].key <= h[j].key;
      } else if Parent(j) == p {
        assert h[p].key <= h[j].key;
      }
    }
  }

  lemma SiftDownStep(h: seq<Entry>, i: nat, m: nat)
    requires i < |h| && m < |h| && m > 0 && Parent(m) == i && OrderedAbove(h, i)
    requires h[m].key < h[i].key
    requires forall j :: 0 < j < |h| && Parent(j) == i ==> h[m].key <= h[j].key
    ensures OrderedAbove(h[i := h[m]][m := h[i]], m)
  {
    var h' := h[i := h[m]][m := h[i]];
    forall j | 0 < j < |h'| && Parent(j) != m ensures h'[Parent(j)].key <= h'[j].key {
      if j == m {
      } else if Parent(j) == i {
      } else if j == i {
        assert h[Parent(i)].key <= h[m].key;
      }
    }
    forall j | 0 < j < |h'| && Parent(j) == m ensures h'[Parent(m)].key <= h'[j].key {
      assert h[m].key <= h[j].key;
    }
  }

  /** `sift_up(i)`: moves slot i's entry towards the root while it is smaller
      than its parent. */
  method SiftUp(hp0: Heap, i0: nat) returns (hp: Heap)
    requires i0 < |hp0.h|
    requires SlotsIndexed(hp0.h, hp0.pos) && OrderedBelow(hp0.h, i0)
    ensures |hp.h| == |hp0.h|
    ensures HeapOrder(hp.h) && SlotsIndexed(hp.h, hp.pos)
    ensures multiset(hp.h) == multiset(hp0.h)
    ensures SameOutside(hp.pos, hp0.pos, VertexSet(hp0.h))
  {
    hp := hp0;
    var i: nat := i0;
    while i > 0 && hp.h[i].key < hp.h[Parent(i)].key
      invariant i < |hp.h| == |hp0.h|
      invariant SlotsIndexed(hp.h, hp.pos) && OrderedBelow(hp.h, i)
      invariant multiset(hp.h) == multiset(hp0.h)
      invariant SameOutside(hp.pos, hp0.pos, VertexSet(hp0.h))
    {
      SwapIndexed(hp, i, Parent(i), hp0.h, hp0.pos);
      SiftUpStep(hp.h, i);
      hp := Swap(hp, i, Parent(i));
      i := Parent(i);
    }
  }

  /** A slot no larger than its children completes the order of `OrderedAbove`. */
  lemma SiftDownDone(h: seq<Entry>, i: nat)
    requires i < |h| && OrderedAbove(h, i)
    requires 2 * i + 1 < |h| ==> h[i].key <= h[2 * i + 1].key
    requires 2 * i + 2 < |h| ==> h[i].key <= h[2 * i + 2].key
    ensures HeapOrder(h)
  {
    forall j | 0 < j < |h| ensures h[Parent(j)].key <= h[j].key {
      ChildOf(i, j);
    }
  }

  /** The smaller child `m` of slot i is no larger than any child of i. */
  lemma SmallestChild(h: seq<Entry>, i: nat, m: nat)
    requires m == 2 * i + 1 || m == 2 * i + 2
    requires m < |h|
    requires 2 * i + 1 < |h| ==> h[m].key <= h[2 * i + 1].key
    requires 2 * i + 2 < |h| ==> h[m].key <= h[2 * i + 2].key
    ensures m > 0 && Parent(m) == i
    ensures forall j :: 0 < j < |h| && Parent(j) == i ==> h[m].key <= h[j].key
  {
    ChildOf(i, m);
    forall j | 0 < j < |h| && Parent(j) == i ensures h[m].key <= h[j].key {
      ChildOf(i, j);
    }
  }

  /** One move of `sift_down`: swapping slot i with its smaller child m, which
      is smaller than slot i, re-establishes the loop's invariant at m. */
  lemma SiftDownMove(hp: Heap, hp0: Heap, i: nat, m: nat)
    requires i < |hp.h| && SlotsIndexed(hp.h, hp.pos) && OrderedAbove(hp.h, i)
    requires multiset(hp.h) == multiset(hp0.h) && SameOutside(hp.pos, hp0.pos, VertexSet(hp0.h))
    requires (m == 2 * i + 1 || m == 2 * i + 2) && m < |hp.h| && hp.h[m].key < hp.h[i].key
    requires 2 * i + 1 < |hp.h| ==> hp.h[m].key <= hp.h[2 * i + 1].key
    requires 2 * i + 2 < |hp.h| ==> hp.h[m].key <= hp.h[2 * i + 2].key
    ensures var r := Swap(hp, i, m);
      && |r.h| == |hp.h| && SlotsIndexed(r.h, r.pos) && OrderedAbove(r.h, m)
      && multiset(r.h) == multiset(hp0.h) && SameOutside(r.pos, hp0.pos, VertexSet(hp0.h))
  {
    SmallestChild(hp.h, i, m);
    SwapIndexed(hp, i, m, hp0.h, hp0.pos);
    SiftDownStep(hp.h, i, m);
  }

  /** `sift_down(i)`: moves slot i's entry towards the leaves, swapping it
      with its smaller child while that child is smaller. */
  method SiftDown(hp0: Heap, i0: nat) returns (hp: Heap)
    requires i0 < |hp0.h|
    requires SlotsIndexed(hp0.h, hp0.pos) && OrderedAbove(hp0.h, i0)
    ensures |hp.h| == |hp0.h|
    ensures HeapOrder(hp.h) && SlotsIndexed(hp.h, hp.pos)
    ensures multiset(hp.h) == multiset(hp0.h)
    ensures SameOutside(hp.pos, hp0.pos, VertexSet(hp0.h))
  {
    hp := hp0;
    var n := |hp.h|;
    var i: nat := i0;
    while true
      invariant i < |hp.h| == n
      invariant SlotsIndexed(hp.h, hp.pos) && OrderedAbove(hp.h, i)
      invariant multiset(hp.h) == multiset(hp0.h)
      invariant SameOutside(hp.pos, hp0.pos, VertexSet(hp0.h))
      decreases n - i
    {
      var l, r, m := 2 * i + 1, 2 * i + 2, i;
      if l < n && hp.h[l].key < hp.h[m].key {
        m := l;
      }
      if r < n && hp.h[r].key < hp.h[m].key {
        m := r;
      }
      if m == i {
        SiftDownDone(hp.h, i);
        break;
      }
      SiftDownMove(hp, hp0, i, m);
      hp := Swap(hp, i, m);
      i := m;
    }
  }

  /** A valid heap's view is `view` when its entries are exactly `view`'s pairs. */
  lemma ViewFromMembers(hp: Heap, view: map<nat, nat>)
    requires Valid(hp)
    requires forall x, y :: Entry(y, x) in hp.h <==> (x in view && view[x] == y)
    ensures View(hp) == view
  {
    ViewByEntries(hp, hp, view);
  }

  /** `push(v, k)`: appends `(k, v)` and sifts it up. `v` must be absent. */
  method Push(hp: Heap, v: nat, k: nat) returns (hp': Heap)
    requires Valid(hp) && v < |hp.pos| && hp.pos[v] == -1
    ensures Valid(hp') && |hp'.pos| == |hp.pos| && |hp'.h| == |hp.h| + 1
    ensures multiset(hp'.h) == multiset(hp.h) + multiset{Entry(k, v)}
    ensures hp'.pos[v] != -1
    ensures View(hp') == View(hp)[v := k]
  {
    var h := hp.h + [Entry(k, v)];
    var i := |h| - 1;
    var pos := hp.pos[v := i];
    assert SlotsIndexed(h, pos) by {
      forall j | 0 <= j < |h| ensures h[j].vertex < |pos| && pos[h[j].vertex] == j {
        if j < i {
          assert hp.h[j].vertex != v;
        }
      }
    }
    hp' := SiftUp(Heap(h, pos), i);
    VertexSetOfMultiset(h, hp'.h);
    forall x | 0 <= x < |hp'.pos| && x !in VertexSet(hp'.h) ensures hp'.pos[x] == -1 {
      assert h[i] in h;
      assert x != v;
      assert x !in VertexSet(hp.h) by {
        forall e | e in hp.h ensures e.vertex != x {
          assert e in h;
        }
      }
      AbsentIsMinusOne(hp, x);
    }
    FinishValid(hp'.h, hp'.pos);
    PushView(hp, hp', h, v, k);
    assert Entry(k, v) in multiset(hp'.h);
    ViewEntry(hp', v, k);
  }

  lemma PushView(hp: Heap, hp': Heap, h: seq<Entry>, v: nat, k: nat)
    requires Valid(hp) && Valid(hp') && v < |hp.pos| && hp.pos[v] == -1
    requires h == hp.h + [Entry(k, v)] && multiset(hp'.h) == multiset(h)
    ensures View(hp') == View(hp)[v := k]
  {
    var view := View(hp)[v := k];
    forall x, y ensures Entry(y, x) in hp'.h <==> (x in view && view[x] == y) {
      ViewEntry(hp, x, y);
      assert Entry(y, x) in hp'.h <==> Entry(y, x) in h by {
        assert Entry(y, x) in hp'.h <==> Entry(y, x) in multiset(hp'.h);
      }
      assert Entry(y, x) in h <==> Entry(y, x) in hp.h || Entry(y, x) == Entry(k, v);
      if x == v {
        ViewEntry(hp, v, y);
      }
    }
    ViewFromMembers(hp', view);
  }

  /** `pop()`: removes and returns the root, a least-key entry. The last entry
      moves to the root and is sifted down; the popped vertex becomes absent.
      The heap must be non-empty. */
  method Pop(hp: Heap) returns (top: Entry, hp': Heap)
    requires Valid(hp) && |hp.h| > 0
    ensures Valid(hp') && |hp'.pos| == |hp.pos| && |hp'.h| == |hp.h| - 1
    ensures top == hp.h[0]
    ensures forall e :: e in hp.h ==> top.key <= e.key
    ensures multiset(hp'.h) == multiset(hp.h) - multiset{top}
    ensures hp'.pos[top.vertex] == -1
    ensures top.vertex in View(hp) && View(hp)[top.vertex] == top.key
    ensures View(hp') == View(hp) - {top.vertex}
  {
    top := hp.h[0];
    var last := hp.h[|hp.h| - 1];
    var h := hp.h[0 := last];
    var pos := hp.pos[last.vertex := 0];
    h := h[..|h| - 1];
    PopMoved(hp, h);
    PopIndexed(hp, h, pos);
    var h1 := h;
    var hp1 := Heap(h, pos);
    if |h| > 0 {
      hp1 := SiftDown(hp1, 0);
    }
    hp' := Heap(hp1.h, hp1.pos[top.vertex := -1]);
    PopFinish(hp, h1, pos, hp1, hp');
    RootIsLeast(hp.h);
    PopMultiset(hp.h);
    PopView(hp, hp', top);
  }

  lemma RootIsLeast(h: seq<Entry>)
    requires HeapOrder(h) && |h| > 0
    ensures forall e :: e in h ==> h[0].key <= e.key
  {
    forall e | e in h ensures h[0].key <= e.key {
      var j :| 0 <= j < |h| && h[j] == e;
      RootIsMin(h, j);
    }
  }

  lemma PopMultiset(h: seq<Entry>)
    requires |h| > 0
    ensures multiset(h[1..]) == multiset(h) - multiset{h[0]}
  {
    assert h == [h[0]] + h[1..];
  }

  /** After sifting down, clearing the popped vertex's index leaves a valid heap. */
  lemma PopFinish(hp: Heap, h1: seq<Entry>, pos1: seq<int>, hp1: Heap, hp': Heap)
    requires Valid(hp) && |hp.h| > 0 && |pos1| == |hp.pos|
    requires multiset(h1) == multiset(hp.h[1..]) && hp.h[0].vertex !in VertexSet(h1)
    requires forall x :: 0 <= x < |pos1| && x !in VertexSet(h1) && x != hp.h[0].vertex ==> pos1[x] == -1
    requires HeapOrder(hp1.h) && SlotsIndexed(hp1.h, hp1.pos) && multiset(hp1.h) == multiset(h1)
    requires SameOutside(hp1.pos, pos1, VertexSet(h1))
    requires hp' == Heap(hp1.h, hp1.pos[hp.h[0].vertex := -1])
    ensures Valid(hp') && |hp'.pos| == |hp.pos| && hp'.pos[hp.h[0].vertex] == -1
    ensures |hp'.h| == |hp.h| - 1 && multiset(hp'.h) == multiset(hp.h[1..])
  {
    VertexSetOfMultiset(h1, hp1.h);
    assert |hp'.h| == |hp.h[1..]| by {
      assert |multiset(hp'.h)| == |multiset(hp.h[1..])|;
    }
    FinishValid(hp'.h, hp'.pos);
  }

  /** After `h[0] = last; h.pop_back()` the array holds the entries of slots 1.. . */
  lemma PopMoved(hp: Heap, h1: seq<Entry>)
    requires Valid(hp) && |hp.h| > 0
    requires h1 == hp.h[0 := hp.h[|hp.h| - 1]][..|hp.h| - 1]
    ensures multiset(h1) == multiset(hp.h[1..])
    ensures hp.h[0].vertex !in VertexSet(h1)
  {
    var n := |hp.h|;
    if n > 1 {
      assert hp.h[1..] == hp.h[1..n - 1] + [hp.h[n - 1]];
      assert h1 == [hp.h[n - 1]] + hp.h[1..n - 1];
    }
    forall e | e in h1 ensures e.vertex != hp.h[0].vertex {
      assert e in multiset(hp.h[1..]);
      var j :| 1 <= j < n && hp.h[j] == e;
      SlotsDistinct(hp.h, hp.pos, 0, j);
    }
  }

  /** The index after `pos[last.second] = 0` suits `sift_down(0)`, and marks
      every vertex that is neither stored nor the popped one as absent. */
  lemma PopIndexed(hp: Heap, h1: seq<Entry>, pos1: seq<int>)
    requires Valid(hp) && |hp.h| > 0
    requires h1 == hp.h[0 := hp.h[|hp.h| - 1]][..|hp.h| - 1]
    requires pos1 == hp.pos[hp.h[|hp.h| - 1].vertex := 0]
    ensures |h1| > 0 ==> SlotsIndexed(h1, pos1) && OrderedAbove(h1, 0)
    ensures forall x :: 0 <= x < |pos1| && x !in VertexSet(h1) && x != hp.h[0].vertex ==> pos1[x] == -1
  {
    var n := |hp.h|;
    var last := hp.h[n - 1];
    if n > 1 {
      forall j | 0 <= j < |h1| ensures h1[j].vertex < |pos1| && pos1[h1[j].vertex] == j {
        if j > 0 {
          SlotsDistinct(hp.h, hp.pos, j, n - 1);
        }
      }
    }
    forall x | 0 <= x < |pos1| && x !in VertexSet(h1) && x != hp.h[0].vertex ensures pos1[x] == -1 {
      assert n > 1 ==> h1[0] in h1;
      assert x != last.vertex;
      forall j | 0 <= j < n ensures hp.h[j].vertex != x {
        if 0 < j < n - 1 {
          assert h1[j] == hp.h[j] && h1[j] in h1;
        }
      }
    }
  }

  lemma PopView(hp: Heap, hp': Heap, top: Entry)
    requires Valid(hp) && Valid(hp') && |hp.h| > 0 && top == hp.h[0]
    requires multiset(hp'.h) == multiset(hp.h[1..])
    ensures top.vertex in View(hp) && View(hp)[top.vertex] == top.key
    ensures View(hp') == View(hp) - {top.vertex}
  {
    ViewEntry(hp, top.vertex, top.key);
    var view := View(hp) - {top.vertex};
    forall x, y ensures Entry(y, x) in hp'.h <==> (x in view && view[x] == y) {
      ViewEntry(hp, x, y);
      assert Entry(y, x) in hp'.h <==> Entry(y, x) in hp.h[1..] by {
        assert Entry(y, x) in hp'.h <==> Entry(y, x) in multiset(hp'.h);
      }
      if Entry(y, x) in hp.h[1..] {
        var j :| 1 <= j < |hp.h| && hp.h[j] == Entry(y, x);
        SlotsDistinct(hp.h, hp.pos, 0, j);
      }
      if Entry(y, x) in hp.h && x != top.vertex {
        var j :| 0 <= j < |hp.h| && hp.h[j] == Entry(y, x);
        assert hp.h[1..][j - 1] == Entry(y, x);
      }
    }
    ViewFromMembers(hp', view);
  }

  /** `decrease(v, k)`: lowers v's key to k and sifts it up; a no-op when v is
      absent or k is not smaller than v's key. */
  method Decrease(hp: Heap, v: nat, k: nat) returns (hp': Heap)
    requires Valid(hp) && v < |hp.pos|
    ensures Valid(hp') && |hp'.pos| == |hp.pos| && |hp'.h| == |hp.h|
    ensures v in View(hp) && k < View(hp)[v] ==>
      && View(hp') == View(hp)[v := k]
      && multiset(hp'.h) == multiset(hp.h) - multiset{Entry(View(hp)[v], v)} + multiset{Entry(k, v)}
    ensures !(v in View(hp) && k < View(hp)[v]) ==> hp' == hp
  {
    var i := hp.pos[v];
    ViewEntry(hp, v, if i == -1 then 0 else hp.h[i].key);
    if i == -1 || k >= hp.h[i].key {
      return hp;
    }
    var h := hp.h[i := hp.h[i].(key := k)];
    DecreasePrepared(hp, h, v, i, k);
    hp' := SiftUp(Heap(h, hp.pos), i);
    DecreaseFinish(hp, h, v, i, k, hp');
    DecreaseView(hp, hp', h, v, i, k);
  }

  /** Lowering the key at slot i breaks the order at most between i and its parent. */
  lemma DecreasePrepared(hp: Heap, h: seq<Entry>, v: nat, i: nat, k: nat)
    requires Valid(hp) && v < |hp.pos| && i < |hp.h| && hp.pos[v] == i && k < hp.h[i].key
    requires h == hp.h[i := hp.h[i].(key := k)]
    ensures h[i] == Entry(k, v) && h == hp.h[i := Entry(k, v)]
    ensures SlotsIndexed(h, hp.pos) && OrderedBelow(h, i)
    ensures multiset(h) == multiset(hp.h) - multiset{hp.h[i]} + multiset{Entry(k, v)}
  {
    forall j | 0 < j < |h| && i > 0 && Parent(j) == i ensures h[Parent(i)].key <= h[j].key {
      assert hp.h[Parent(i)].key <= hp.h[i].key <= hp.h[j].key;
    }
  }

  /** After sifting up, the heap with the lowered key is valid. */
  lemma DecreaseFinish(hp: Heap, h: seq<Entry>, v: nat, i: nat, k: nat, hp': Heap)
    requires Valid(hp) && v < |hp.pos| && i < |hp.h| && hp.pos[v] == i
    requires h == hp.h[i := Entry(k, v)]
    requires HeapOrder(hp'.h) && SlotsIndexed(hp'.h, hp'.pos) && multiset(hp'.h) == multiset(h)
    requires SameOutside(hp'.pos, hp.pos, VertexSet(h))
    ensures Valid(hp')
  {
    VertexSetOfMultiset(h, hp'.h);
    forall x | 0 <= x < |hp'.pos| && x !in VertexSet(hp'.h) ensures hp'.pos[x] == -1 {
      assert h[i] in h;
      assert x !in VertexSet(hp.h) by {
        forall e | e in hp.h ensures e.vertex != x {
          var j :| 0 <= j < |hp.h| && hp.h[j] == e;
          assert h[j] in h;
        }
      }
      AbsentIsMinusOne(hp, x);
    }
    FinishValid(hp'.h, hp'.pos);
  }

  lemma DecreaseView(hp: Heap, hp': Heap, h: seq<Entry>, v: nat, i: nat, k: nat)
    requires Valid(hp) && Valid(hp') && v < |hp.pos| && i < |hp.h| && hp.pos[v] == i
    requires h == hp.h[i := Entry(k, v)] && multiset(hp'.h) == multiset(h)
    ensures View(hp') == View(hp)[v := k]
  {
    var view := View(hp)[v := k];
    forall x, y ensures Entry(y, x) in hp'.h <==> (x in view && view[x] == y) {
      ViewEntry(hp, x, y);
      assert Entry(y, x) in hp'.h <==> Entry(y, x) in h by {
        assert Entry(y, x) in hp'.h <==> Entry(y, x) in multiset(hp'.h);
      }
      if Entry(y, x) in h {
        var j :| 0 <= j < |h| && h[j] == Entry(y, x);
        if j != i {
          assert hp.h[j] == Entry(y, x);
          SlotsDistinct(hp.h, hp.pos, i, j);
        }
      }
      if Entry(y, x) in hp.h && x != v {
        var j :| 0 <= j < |hp.h| && hp.h[j] == Entry(y, x);
        assert h[j] == Entry(y, x);
      }
    }
    ViewFromMembers(hp', view);
  }

  /** `index(v)`: v's slot, or -1 when v is absent. */
  function Index(hp: Heap, v: nat): (r: int)
    requires Valid(hp) && v < |hp.pos|
    ensures r == -1 <==> forall i :: 0 <= i < |hp.h| ==> hp.h[i].vertex != v
    ensures r == -1 <==> v !in View(hp)
    ensures r != -1 ==> 0 <= r < |hp.h| && hp.h[r].vertex == v
  {
    hp.pos[v]
  }
}
