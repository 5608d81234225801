/** The restart sequence: powers of a base with exponents taken from the Luby sequence. */
module LubySequence {

  // The finite subsequences 1, 1 1 2, 1 1 2 1 1 2 4, ... given by their exponents.
  function Block(k: nat): (b: seq<nat>)
    ensures |b| > 0
  {
    if k == 0 then [0] else Block(k - 1) + Block(k - 1) + [k]
  }

  lemma {:induction false} BlockPrefix(j: nat, k: nat)
    requires j <= k
    ensures Block(j) <= Block(k)
    decreases k
  {
    if j >= k {
    } else {
      BlockPrefix(j, k - 1);
      assert Block(k - 1) <= Block(k);
    }
  }

  /** The infinite sequence of exponents: every subsequence long enough agrees on it. */
  ghost predicate IsExponent(x: nat, e: nat) {
    forall k :: x < |Block(k)| ==> Block(k)[x] == e
  }

  lemma BlockExponent(k: nat, x: nat)
    requires x < |Block(k)|
    ensures IsExponent(x, Block(k)[x])
  {
    forall j: nat | x < |Block(j)| ensures Block(j)[x] == Block(k)[x] {
      if j <= k { BlockPrefix(j, k); } else { BlockPrefix(k, j); }
    }
  }

  function Pow(y: real, e: nat): real {
    if e == 0 then 1.0 else y * Pow(y, e - 1)
  }

  // One step down: the exponent at x is found in the next smaller subsequence.
  lemma BlockHalf(k: nat, x: nat)
    requires x + 1 < |Block(k)|
    ensures k > 0 && |Block(k)| == 2 * |Block(k - 1)| + 1
    ensures Block(k - 1)[x % |Block(k - 1)|] == Block(k)[x]
  {
    var s := |Block(k - 1)|;
    ModOnce(x, s);
    if x >= s {
      assert Block(k)[x] == (Block(k - 1) + [k])[x - s];
    }
  }

  lemma ModOnce(x: nat, s: nat)
    requires x < 2 * s
    ensures x % s == if x < s then x else x - s
  {
    if x >= s {
      assert x == s * 1 + (x - s);
    }
  }

  /** luby(y, x) is y to the x-th exponent. */
  method Luby(y: real, x: nat) returns (r: real, ghost e: nat)
    ensures IsExponent(x, e) && r == Pow(y, e)
    ensures exists k :: IsExponent(x, k) && r == Pow(y, k)
  {
    var size: nat, sq: nat := 1, 0;
    while size < x + 1
      invariant size == |Block(sq)|
      decreases x + 1 - size
    {
      sq := sq + 1;
      size := 2 * size + 1;
    }
    ghost var k := sq;
    BlockExponent(k, x);
    e := Block(k)[x];
    var i: nat := x;
    while size - 1 != i
      invariant size == |Block(sq)| && i < size && Block(sq)[i] == e
      decreases sq
    {
      BlockHalf(sq, i);
      size := (size - 1) / 2;
      sq := sq - 1;
      i := i % size;
    }
    BlockLast(sq);
    r := Pow(y, sq);
  }

  // Bernoulli's inequality.
  lemma {:induction false} PowGrows(y: real, e: nat)
    requires y > 1.0
    ensures Pow(y, e) >= 1.0 + e as real * (y - 1.0)
  {
    if e == 0 {
    } else {
      PowGrows(y, e - 1);
      var d, p := y - 1.0, Pow(y, e - 1);
      var m := (e - 1) as real * d;
      assert Pow(y, e) == p + d * p;
      ProductNonNegative(d, (e - 1) as real);
      ProductNonNegative(d, p - 1.0);
      assert d * p == d + d * (p - 1.0);
      assert e as real * d == m + d;
    }
  }

  lemma ProductNonNegative(x: real, y: real)
    requires x >= 0.0 && y >= 0.0
    ensures x * y >= 0.0
  {
  }

  /** The powers of a base above 1 exceed every bound. */
  lemma PowUnbounded(y: real, b: nat) returns (e: nat)
    requires y > 1.0
    ensures Pow(y, e) >= b as real
  {
    var q := b as real / (y - 1.0);
    e := if q < 0.0 then 0 else q.Floor + 1;
    PowGrows(y, e);
    assert q * (y - 1.0) == b as real;
    ProductNonNegative(e as real - q, y - 1.0);
  }

  // The exponent k is reached at the end of the k-th subsequence.
  lemma LastExponent(k: nat, e: nat)
    requires IsExponent(|Block(k)| - 1, e)
    ensures e == k
  {
    BlockLast(k);
  }

  lemma BlockLast(k: nat)
    ensures Block(k)[|Block(k)| - 1] == k
  {
  }
}
