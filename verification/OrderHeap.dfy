/** The indexed binary heap that orders the unassigned variables by activity. */
module OrderHeaps {
  import opened Basics

  function Left(i: nat): nat { 2 * i + 1 }

  function Right(i: nat): nat { 2 * (i + 1) }

  function Parent(i: nat): nat
    requires i > 0
  {
    (i - 1) / 2
  }

  function Act(act: seq<real>, n: nat): real {
    if n < |act| then act[n] else 0.0
  }

  // The comparison of the heap: the more active variable comes first.
  predicate Before(act: seq<real>, x: nat, y: nat) {
    Act(act, x) > Act(act, y)
  }

  // heap and indices are inverse to each other.
  predicate Inverse(h: seq<nat>, idx: seq<int>) {
    && (forall i :: 0 <= i < |h| ==> h[i] < |idx| && idx[h[i]] == i)
    && (forall n :: 0 <= n < |idx| && idx[n] != -1 ==> 0 <= idx[n] < |h| && h[idx[n]] == n)
  }

  predicate Ordered(h: seq<nat>, act: seq<real>) {
    OrderedBut(h, act, |h|)
  }

  // Heap order, except perhaps between entry k and its parent.
  predicate OrderedBut(h: seq<nat>, act: seq<real>, k: nat) {
    && (forall i {:trigger Parent(i)} :: 0 < i < |h| && i != k ==> Act(act, h[Parent(i)]) >= Act(act, h[i]))
    && (forall i {:trigger Parent(i)} :: 0 < i < |h| && Parent(i) == k && k > 0 ==>
        Act(act, h[Parent(k)]) >= Act(act, h[i]))
  }

  // Heap order of all entries whose parent is at least lo, except perhaps below entry k.
  predicate OrderedFrom(h: seq<nat>, act: seq<real>, lo: nat, k: nat) {
    && (forall i {:trigger Parent(i)} :: 0 < i < |h| && Parent(i) >= lo && Parent(i) != k ==>
        Act(act, h[Parent(i)]) >= Act(act, h[i]))
    && (forall i {:trigger Parent(i)} :: 0 < i < |h| && Parent(i) == k && k > 0 && Parent(k) >= lo ==>
        Act(act, h[Parent(k)]) >= Act(act, h[i]))
  }

  /** The root of a heap is a most active entry. */
  lemma {:induction false} RootFirst(h: seq<nat>, act: seq<real>, i: nat)
    requires Ordered(h, act) && i < |h|
    ensures Act(act, h[0]) >= Act(act, h[i])
    decreases i
  {
    if i == 0 {
    } else {
      RootFirst(h, act, Parent(i));
    }
  }

  lemma ExchangeInverse(h: seq<nat>, idx: seq<int>, i: nat, j: nat)
    requires Inverse(h, idx) && i < |h| && j < |h| && i != j
    ensures Inverse(Exchanged(h, i, j), idx[h[j] := i][h[i] := j])
    ensures forall n :: 0 <= n < |idx| ==> (idx[h[j] := i][h[i] := j][n] == -1 <==> idx[n] == -1)
  {
  }

  lemma UpStep(h: seq<nat>, act: seq<real>, i: nat)
    requires OrderedBut(h, act, i) && 0 < i < |h|
    requires Before(act, h[i], h[Parent(i)])
    ensures OrderedBut(Exchanged(h, i, Parent(i)), act, Parent(i))
  {
  }

  // The child of i that comes first.
  function FirstChild(h: seq<nat>, act: seq<real>, i: nat): nat
    requires Left(i) < |h|
  {
    if Right(i) < |h| && Before(act, h[Right(i)], h[Left(i)]) then Right(i) else Left(i)
  }

  lemma DownStop(h: seq<nat>, act: seq<real>, lo: nat, i: nat)
    requires OrderedFrom(h, act, lo, i) && lo <= i < |h|
    requires Left(i) < |h| ==> !Before(act, h[FirstChild(h, act, i)], h[i])
    ensures OrderedFrom(h, act, lo, |h|)
  {
    forall k | 0 < k < |h| && Parent(k) >= lo ensures Act(act, h[Parent(k)]) >= Act(act, h[k]) {
      if Parent(k) == i { assert k == Left(i) || k == Right(i); }
    }
  }

  lemma DownStep(h: seq<nat>, act: seq<real>, lo: nat, i: nat, c: nat)
    requires OrderedFrom(h, act, lo, i) && lo <= i && Left(i) < |h| && i < |h|
    requires c == FirstChild(h, act, i) && Before(act, h[c], h[i])
    ensures OrderedFrom(Exchanged(h, i, c), act, lo, c)
  {
  }

  // The arrays while an entry x percolates: (h, idx) is what they become when x is put back at k.
  predicate Hole(h: seq<nat>, idx: seq<int>, heap: seq<nat>, indices: seq<int>, k: nat, x: nat) {
    && |heap| == |h| && |indices| == |idx| && k < |h|
    && Inverse(h, idx) && h[k] == x
    && heap == h[k := heap[k]] && indices == idx[x := indices[x]]
  }

  predicate SameMembers(idx: seq<int>, idx0: seq<int>) {
    |idx| == |idx0| && forall n :: 0 <= n < |idx| ==> (idx[n] == -1 <==> idx0[n] == -1)
  }

  lemma HoleStep(h: seq<nat>, idx: seq<int>, heap: seq<nat>, indices: seq<int>, k: nat, j: nat, x: nat)
    requires Hole(h, idx, heap, indices, k, x) && j < |h| && j != k
    ensures heap[j] == h[j] < |idx| && x < |idx|
    ensures var idx' := idx[h[j] := k][x := j];
            Hole(Exchanged(h, k, j), idx', heap[k := heap[j]], indices[heap[j] := k], j, x) && SameMembers(idx', idx)
  {
    ExchangeInverse(h, idx, k, j);
  }

  // An entry x on its way down: the arrays have a hole at k and heap order can only fail below k.
  predicate Sinking(act: seq<real>, lo: nat, h: seq<nat>, idx: seq<int>, heap: seq<nat>, indices: seq<int>, k: nat,
          x: nat)
  {
    lo <= k && Hole(h, idx, heap, indices, k, x) && OrderedFrom(h, act, lo, k)
  }

  lemma SinkStep(act: seq<real>, lo: nat, h: seq<nat>, idx: seq<int>, heap: seq<nat>, indices: seq<int>, k: nat, x: nat)
    requires Sinking(act, lo, h, idx, heap, indices, k, x) && Left(k) < |heap|
    requires Before(act, heap[FirstChild(heap, act, k)], x)
    ensures var c := FirstChild(heap, act, k);
            heap[c] == h[c] < |idx| && x < |idx| &&
            var idx' := idx[h[c] := k][x := c];
            && Sinking(act, lo, Exchanged(h, k, c), idx', heap[k := heap[c]], indices[heap[c] := k], c, x)
            && SameMembers(idx', idx)
  {
    var c := FirstChild(heap, act, k);
    HoleStep(h, idx, heap, indices, k, c, x);
    DownStep(h, act, lo, k, c);
  }

  lemma SinkEnd(act: seq<real>, lo: nat, h: seq<nat>, idx: seq<int>, heap: seq<nat>, indices: seq<int>, k: nat, x: nat)
    requires Sinking(act, lo, h, idx, heap, indices, k, x)
    requires Left(k) < |heap| ==> !Before(act, heap[FirstChild(heap, act, k)], x)
    ensures heap[k := x] == h && x < |idx| && indices[x := k] == idx
    ensures Inverse(h, idx) && OrderedFrom(h, act, lo, |h|)
  {
    DownStop(h, act, lo, k);
  }

  class OrderHeap {
    var heap: seq<nat>
    var indices: seq<int>

    predicate Valid()
      reads this
    {
      Inverse(heap, indices)
    }

    predicate InHeap(n: nat)
      reads this
    {
      n < |indices| && indices[n] >= 0
    }

    // The heap holds the same entries as before.
    twostate predicate SameEntries()
      reads this
    {
      |indices| == |old(indices)| && forall n :: InHeap(n) <==> old(InHeap(n))
    }

    constructor ()
      ensures Valid() && heap == [] && indices == []
    {
      heap, indices := [], [];
    }

    // Moves entry i up while it comes before its parent; the loop carries the entry in x and
    // writes it back at the end.
    method PercolateUp(act: seq<real>, i: nat)
      requires Valid() && i < |heap| && OrderedBut(heap, act, i)
      modifies this
      ensures Valid() && Ordered(heap, act) && |heap| == |old(heap)| && |indices| == |old(indices)|
      ensures forall n :: InHeap(n) <==> old(InHeap(n))
    {
      var x := heap[i];
      var k := i;
      ghost var h, idx := heap, indices;
      while k != 0 && Before(act, x, heap[Parent(k)])
        invariant k < |heap| == |old(heap)|
        invariant Hole(h, idx, heap, indices, k, x) && OrderedBut(h, act, k)
        invariant SameMembers(idx, old(indices))
      {
        hide Inverse, OrderedBut;
        var p := Parent(k);
        HoleStep(h, idx, heap, indices, k, p, x);
        UpStep(h, act, k);
        h, idx := Exchanged(h, k, p), idx[h[p] := k][x := p];
        heap := heap[k := heap[p]];
        indices := indices[heap[p] := k];
        k := p;
      }
      heap := heap[k := x];
      indices := indices[x := k];
      assert heap == h && indices == idx;
    }

    // Moves entry i down while one of its children comes before it.
    method PercolateDown(act: seq<real>, i: nat, ghost lo: nat)
      requires Valid() && lo <= i < |heap| && OrderedFrom(heap, act, lo, i)
      modifies this
      ensures Valid() && OrderedFrom(heap, act, lo, |heap|) && |heap| == |old(heap)| && |indices| == |old(indices)|
      ensures forall n :: InHeap(n) <==> old(InHeap(n))
    {
      var x := heap[i];
      var k := i;
      ghost var h, idx := heap, indices;
      while Left(k) < |heap|
        invariant |heap| == |old(heap)| && Sinking(act, lo, h, idx, heap, indices, k, x)
        invariant SameMembers(idx, old(indices))
        decreases |heap| - k
      {
        var child := if Right(k) < |heap| && Before(act, heap[Right(k)], heap[Left(k)]) then Right(k) else Left(k);
        if !Before(act, heap[child], x) {
          break;
        }
        hide Inverse, OrderedFrom, Hole;
        SinkStep(act, lo, h, idx, heap, indices, k, x);
        h, idx := Exchanged(h, k, child), idx[h[child] := k][x := child];
        heap := heap[k := heap[child]];
        indices := indices[heap[k] := k];
        k := child;
      }
      SinkEnd(act, lo, h, idx, heap, indices, k, x);
      heap := heap[k := x];
      indices := indices[x := k];
    }

    /** Restores the order after n has become more active. */
    method Decrease(act: seq<real>, n: nat)
      requires Valid() && InHeap(n) && OrderedBut(heap, act, indices[n])
      modifies this
      ensures Valid() && Ordered(heap, act) && SameEntries()
    {
      PercolateUp(act, indices[n]);
    }

    method Insert(act: seq<real>, n: nat)
      requires Valid() && Ordered(heap, act) && !InHeap(n)
      modifies this
      ensures Valid() && Ordered(heap, act) && |indices| >= |old(indices)|
      ensures forall m :: InHeap(m) <==> old(InHeap(m)) || m == n
    {
      if |indices| < n + 1 {
        indices := indices + seq(n + 1 - |indices|, _ => -1);
      }
      indices := indices[n := |heap|];
      heap := heap + [n];
      PercolateUp(act, indices[n]);
    }

    /** Removes and returns a most active entry. */
    method RemoveMin(act: seq<real>) returns (x: nat)
      requires Valid() && Ordered(heap, act) && heap != []
      modifies this
      ensures Valid() && Ordered(heap, act) && |indices| == |old(indices)| && |heap| < |old(heap)|
      ensures old(InHeap(x)) && forall m :: InHeap(m) <==> old(InHeap(m)) && m != x
      ensures forall m :: old(InHeap(m)) ==> Act(act, x) >= Act(act, m)
    {
      forall m: nat | InHeap(m) ensures Act(act, heap[0]) >= Act(act, m) {
        RootFirst(heap, act, indices[m]);
      }
      x := heap[0];
      heap := heap[0 := heap[|heap| - 1]];
      indices := indices[heap[0] := 0];
      indices := indices[x := -1];
      heap := heap[..|heap| - 1];
      if |heap| > 1 {
        PercolateDown(act, 0, 0);
      }
    }

    method Clear()
      requires Valid()
      modifies this
      ensures Valid() && heap == [] && |indices| == |old(indices)|
      ensures forall n :: !InHeap(n)
    {
      for i := 0 to |heap|
        invariant heap == old(heap) && |indices| == |old(indices)|
        invariant forall n :: 0 <= n < |indices| ==> indices[n] == if 0 <= old(indices)[n] < i then -1
            else old(indices)[n]
      {
        indices := indices[heap[i] := -1];
      }
      heap := [];
    }

    // Fills the heap with ns, in that order.
    method Fill(ns: seq<nat>)
      requires Valid()
      requires forall i, j :: 0 <= i < j < |ns| ==> ns[i] != ns[j]
      requires forall i :: 0 <= i < |ns| ==> ns[i] < |indices|
      modifies this
      ensures Valid() && heap == ns && |indices| == |old(indices)|
      ensures forall n :: InHeap(n) <==> n in ns
    {
      Clear();
      for i := 0 to |ns|
        invariant heap == ns[..i] && |indices| == |old(indices)| && Valid()
        invariant forall n :: InHeap(n) <==> n in ns[..i]
      {
        assert ns[i] !in ns[..i];
        indices := indices[ns[i] := i];
        heap := heap + [ns[i]];
      }
      assert ns[..|ns|] == ns;
    }

    /** Rebuilds the heap from the distinct elements of ns. */
    method Build(act: seq<real>, ns: seq<nat>)
      requires Valid()
      requires forall i, j :: 0 <= i < j < |ns| ==> ns[i] != ns[j]
      requires forall i :: 0 <= i < |ns| ==> ns[i] < |indices|
      modifies this
      ensures Valid() && Ordered(heap, act) && |indices| == |old(indices)|
      ensures forall n :: InHeap(n) <==> n in ns
    {
      Fill(ns);
      var i := |heap| / 2;
      while i > 0
        invariant Valid() && |heap| == |ns| && |indices| == |old(indices)| && 0 <= i <= |heap| / 2
        invariant OrderedFrom(heap, act, i, |heap|)
        invariant forall n :: InHeap(n) <==> n in ns
      {
        i := i - 1;
        PercolateDown(act, i, i);
      }
    }
  }
}
