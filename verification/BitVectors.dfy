/** Assignments as bit vectors: bit i is the value of variable i, and bit 0 is unused. */
module BitVectors {
  import opened Basics

  type BitVector = seq<bool>

  // An assignment to the variables 1, ..., n.
  predicate IsAssignment(v: BitVector, n: nat) {
    |v| == n + 1 && !v[0]
  }

  function Xor(v: BitVector, a: BitVector): BitVector
    requires |v| == |a|
  {
    seq(|v|, k requires 0 <= k < |v| => v[k] != a[k])
  }

  predicate IsZeros(v: BitVector) {
    forall k :: 0 <= k < |v| ==> !v[k]
  }

  lemma XorZeros(v: BitVector, a: BitVector)
    requires |v| == |a|
    ensures IsZeros(Xor(v, a)) <==> v == a
  {
    if IsZeros(Xor(v, a)) {
      forall k | 0 <= k < |v| ensures v[k] == a[k] {
        assert !Xor(v, a)[k];
      }
    }
  }

  // The number of positions where v and a differ.
  function Distance(v: BitVector, a: BitVector): nat
    requires |v| == |a|
  {
    if v == [] then 0
    else Distance(v[..|v| - 1], a[..|v| - 1]) + if v[|v| - 1] != a[|v| - 1] then 1 else 0
  }

  lemma {:induction false} DistanceFlip(v: BitVector, a: BitVector, i: nat)
    requires |v| == |a| && i < |v| && v[i] != a[i]
    ensures Distance(v[i := a[i]], a) + 1 == Distance(v, a)
  {
    var n := |v| - 1;
    var w := v[i := a[i]];
    if i < n {
      DistanceFlip(v[..n], a[..n], i);
      assert w[..n] == v[..n][i := a[..n][i]];
    } else {
      assert w[..n] == v[..n];
    }
  }

  // The positions from i on that are set, from the last to the first.
  function OnesFrom(v: BitVector, i: nat): seq<int>
    decreases |v| - i
  {
    if i >= |v| then [] else OnesFrom(v, i + 1) + if v[i] then [i] else []
  }

  lemma {:induction false} OnesFromAre(v: BitVector, i: nat, k: int)
    ensures k in OnesFrom(v, i) <==> i <= k < |v| && v[k]
    decreases |v| - i
  {
    if i >= |v| {
    } else {
      OnesFromAre(v, i + 1, k);
    }
  }

  // ---------- counting ----------

  // The number written by the bits of v but bit 0.
  function Value(v: BitVector): nat {
    if |v| <= 1 then 0 else 2 * Value(v[..|v| - 1]) + if v[|v| - 1] then 1 else 0
  }

  lemma {:induction false} ValueBound(v: BitVector, n: nat)
    requires IsAssignment(v, n)
    ensures Value(v) < Power(2, n)
    decreases n
  {
    if n == 0 {
    } else {
      ValueBound(v[..n], n - 1);
    }
  }

  lemma {:induction false} ValueInjective(v: BitVector, w: BitVector, n: nat)
    requires IsAssignment(v, n) && IsAssignment(w, n) && Value(v) == Value(w)
    ensures v == w
    decreases n
  {
    if n == 0 {
    } else {
      ValueInjective(v[..n], w[..n], n - 1);
      assert v == v[..n] + [v[n]] && w == w[..n] + [w[n]];
    }
  }

  lemma {:induction false} Pigeonhole(ds: seq<nat>, s: nat)
    requires Different(ds) && forall i :: 0 <= i < |ds| ==> ds[i] < s
    ensures |ds| <= s
    decreases s
  {
    if ds == [] {
    } else {
      assert ds[0] < s;
      if k :| 0 <= k < |ds| && ds[k] == s - 1 {
        var rest := ds[..k] + ds[k + 1..];
        assert forall i :: 0 <= i < |rest| ==> rest[i] == ds[if i < k then i else i + 1];
        Pigeonhole(rest, s - 1);
      } else {
        Pigeonhole(ds, s - 1);
      }
    }
  }

  /** There are no more than 2^n different assignments to n variables. */
  lemma AssignmentCount(vs: seq<BitVector>, n: nat)
    requires Different(vs) && forall i :: 0 <= i < |vs| ==> IsAssignment(vs[i], n)
    ensures |vs| <= Power(2, n)
  {
    var ds: seq<nat> := seq(|vs|, i requires 0 <= i < |vs| => Value(vs[i]));
    forall i | 0 <= i < |vs| ensures ds[i] < Power(2, n) {
      ValueBound(vs[i], n);
    }
    forall i, j | 0 <= i < j < |vs| ensures ds[i] != ds[j] {
      if ds[i] == ds[j] { ValueInjective(vs[i], vs[j], n); }
    }
    Pigeonhole(ds, Power(2, n));
  }
}
