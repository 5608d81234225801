/** Conjunctions of monotone disjunctive normal forms. */
module CdnfFormulas {
  import opened BitVectors
  import opened BoolFormulas

  type Monomial = seq<int>
  type Disjunction = seq<Monomial>

  // All literals are over the variables 1, ..., n.
  predicate Over(m: Monomial, n: int) {
    forall k :: 0 <= k < |m| ==> 1 <= Var(m[k]) <= n
  }

  predicate AllOver(h: Disjunction, n: int) {
    forall j :: 0 <= j < |h| ==> Over(h[j], n)
  }

  predicate LitTrue(l: int, v: BitVector) {
    1 <= Var(l) < |v| && (l > 0) == v[Var(l)]
  }

  predicate MonomialTrue(m: Monomial, v: BitVector) {
    forall k :: 0 <= k < |m| ==> LitTrue(m[k], v)
  }

  predicate DnfTrue(h: Disjunction, v: BitVector) {
    exists j :: 0 <= j < |h| && MonomialTrue(h[j], v)
  }

  method EvalMonomial(m: Monomial, v: BitVector) returns (b: bool)
    requires Over(m, |v| - 1)
    ensures b == MonomialTrue(m, v)
  {
    for i := 0 to |m|
      invariant forall k :: 0 <= k < i ==> LitTrue(m[k], v)
    {
      if (m[i] > 0) != v[Var(m[i])] {
        return false;
      }
    }
    b := true;
  }

  method EvalMDnf(h: Disjunction, v: BitVector) returns (b: bool)
    requires AllOver(h, |v| - 1)
    ensures b == DnfTrue(h, v)
  {
    for i := 0 to |h|
      invariant forall j :: 0 <= j < i ==> !MonomialTrue(h[j], v)
    {
      var c := EvalMonomial(h[i], v);
      if c {
        return true;
      }
    }
    b := false;
  }

  /** The conjunction of the variables that bv sets. */
  method MonomialMDnf(bv: BitVector) returns (m: Monomial)
    requires |bv| > 0 && !bv[0] && !IsZeros(bv)
    ensures m == OnesFrom(bv, 1) && m != []
  {
    ghost var one :| 0 <= one < |bv| && bv[one];
    OnesFromAre(bv, 1, one);
    m := [];
    var i := |bv| - 1;
    while i > 0
      invariant 0 <= i < |bv| && m == OnesFrom(bv, i + 1)
    {
      if bv[i] {
        m := m + [i];
      }
      i := i - 1;
    }
  }

  // The literals of m with the variables that a sets complemented.
  function Shifted(m: Monomial, a: BitVector): Monomial {
    seq(|m|, k requires 0 <= k < |m| => if 1 <= Var(m[k]) < |a| && a[Var(m[k])] then -m[k] else m[k])
  }

  method ComputeMOfXXorA(m0: Monomial, a: BitVector) returns (m: Monomial)
    requires Over(m0, |a| - 1)
    ensures m == Shifted(m0, a)
  {
    m := m0;
    for i := 0 to |m|
      invariant |m| == |m0|
      invariant forall k :: 0 <= k < |m| ==> m[k] == if k < i then Shifted(m0, a)[k] else m0[k]
    {
      var l := m[i];
      if a[Var(l)] {
        l := -l;
      }
      m := m[i := l];
    }
  }

  /** The term of a support v with respect to a. */
  function Term(v: BitVector, a: BitVector): Monomial
    requires |v| == |a|
  {
    Shifted(OnesFrom(Xor(v, a), 1), a)
  }

  lemma OnesOver(bv: BitVector)
    requires |bv| > 0
    ensures Over(OnesFrom(bv, 1), |bv| - 1)
  {
    var m := OnesFrom(bv, 1);
    forall k | 0 <= k < |m| ensures 1 <= m[k] <= |bv| - 1 {
      OnesFromAre(bv, 1, m[k]);
      assert m[k] in m;
    }
  }

  lemma TermOver(v: BitVector, a: BitVector)
    requires |v| == |a| > 0
    ensures Over(Term(v, a), |a| - 1)
  {
    OnesOver(Xor(v, a));
  }

  /** The term holds exactly where v is agreed with in all positions in which v differs from a. */
  lemma TermMeaning(v: BitVector, a: BitVector, x: BitVector)
    requires |v| == |a| == |x| > 0
    ensures MonomialTrue(Term(v, a), x) <==> forall i :: 1 <= i < |v| && v[i] != a[i] ==> x[i] == v[i]
  {
    var ones, t := OnesFrom(Xor(v, a), 1), Term(v, a);
    OnesOver(Xor(v, a));
    if MonomialTrue(t, x) {
      forall i | 1 <= i < |v| && v[i] != a[i] ensures x[i] == v[i] {
        OnesFromAre(Xor(v, a), 1, i);
        var k :| 0 <= k < |ones| && ones[k] == i;
        assert LitTrue(t[k], x);
      }
    }
    if forall i :: 1 <= i < |v| && v[i] != a[i] ==> x[i] == v[i] {
      forall k | 0 <= k < |t| ensures LitTrue(t[k], x) {
        OnesFromAre(Xor(v, a), 1, ones[k]);
        assert ones[k] in ones;
        assert Xor(v, a)[ones[k]];
      }
    }
  }

  // ---------- as boolean formulas ----------

  function MonomialFormula(m: Monomial): Formula {
    And(seq(|m|, i requires 0 <= i < |m| => Literal(m[i])))
  }

  function DnfFormula(h: Disjunction): Formula {
    Or(seq(|h|, i requires 0 <= i < |h| => MonomialFormula(h[i])))
  }

  function CdnfFormula(hs: seq<Disjunction>): Formula {
    And(seq(|hs|, i requires 0 <= i < |hs| => DnfFormula(hs[i])))
  }

  method MonomialToBoolFormula(m: Monomial) returns (f: Formula)
    ensures f == MonomialFormula(m)
  {
    var fs: seq<Formula> := seq(|m|, _ => Literal(0));
    for i := 0 to |m|
      invariant |fs| == |m| && forall k :: 0 <= k < i ==> fs[k] == Literal(m[k])
    {
      fs := fs[i := Literal(m[i])];
    }
    f := And(fs);
  }

  method DnfToBoolFormula(h: Disjunction) returns (f: Formula)
    ensures f == DnfFormula(h)
  {
    var fs: seq<Formula> := seq(|h|, _ => Literal(0));
    for i := 0 to |h|
      invariant |fs| == |h| && forall k :: 0 <= k < i ==> fs[k] == MonomialFormula(h[k])
    {
      var g := MonomialToBoolFormula(h[i]);
      fs := fs[i := g];
    }
    f := Or(fs);
  }

  method CdnfToBoolFormula(hs: seq<Disjunction>) returns (f: Formula)
    ensures f == CdnfFormula(hs)
  {
    var fs: seq<Formula> := seq(|hs|, _ => Literal(0));
    for i := 0 to |hs|
      invariant |fs| == |hs| && forall k :: 0 <= k < i ==> fs[k] == DnfFormula(hs[k])
    {
      var g := DnfToBoolFormula(hs[i]);
      fs := fs[i := g];
    }
    f := And(fs);
  }

  ghost function WorldOf(v: BitVector): World {
    iset k: nat | k < |v| && v[k]
  }

  lemma MonomialMeaning(m: Monomial, v: BitVector)
    requires Over(m, |v| - 1)
    ensures Eval(WorldOf(v), MonomialFormula(m)) <==> MonomialTrue(m, v)
  {
    var f := MonomialFormula(m);
    forall k | 0 <= k < |m| ensures Eval(WorldOf(v), f.fs[k]) <==> LitTrue(m[k], v) {
      assert f.fs[k] == Literal(m[k]);
    }
  }

  lemma DnfMeaning(h: Disjunction, v: BitVector)
    requires AllOver(h, |v| - 1)
    ensures Eval(WorldOf(v), DnfFormula(h)) <==> DnfTrue(h, v)
  {
    var f := DnfFormula(h);
    forall k | 0 <= k < |h| ensures Eval(WorldOf(v), f.fs[k]) <==> MonomialTrue(h[k], v) {
      MonomialMeaning(h[k], v);
    }
  }

  /** The boolean formula evaluates as the disjunctions do. */
  lemma CdnfMeaning(hs: seq<Disjunction>, v: BitVector)
    requires forall i :: 0 <= i < |hs| ==> AllOver(hs[i], |v| - 1)
    ensures Eval(WorldOf(v), CdnfFormula(hs)) <==> forall i :: 0 <= i < |hs| ==> DnfTrue(hs[i], v)
  {
    var f := CdnfFormula(hs);
    forall k | 0 <= k < |hs| ensures Eval(WorldOf(v), f.fs[k]) <==> DnfTrue(hs[k], v) {
      DnfMeaning(hs[k], v);
    }
  }
}
