/** The monotone theory behind the learner: why supports and bases can be charged to the terms
    and clauses of the target function. */
module CdnfTheory {
  import opened Basics
  import opened BitVectors
  import opened BoolFormulas
  import opened CdnfFormulas

  // The list of terms of a basis, or nothing while it is being rebuilt.
  datatype Hypothesis = Freed | Terms(ms: Disjunction)

  // A falsifying point, the supports found for it, and their terms.
  datatype Basis = Basis(a: BitVector, T: seq<BitVector>, H: Hypothesis)

  ghost predicate PointsOK(a: BitVector, T: seq<BitVector>, n: nat) {
    IsAssignment(a, n) && forall j :: 0 <= j < |T| ==> IsAssignment(T[j], n) && T[j] != a
  }

  function TermsOf(T: seq<BitVector>, a: BitVector): Disjunction {
    seq(|T|, j requires 0 <= j < |T| => if |T[j]| == |a| then Term(T[j], a) else [])
  }

  /** All points have the right length, no support is the point itself, and the terms are those of
      the supports. */
  ghost predicate BasisOK(B: Basis, n: nat) {
    PointsOK(B.a, B.T, n) && B.H == Terms(TermsOf(B.T, B.a))
  }

  /** Every basis but the last has a support. */
  ghost predicate BasesOK(bases: seq<Basis>, n: nat) {
    && (forall i :: 0 <= i < |bases| ==> BasisOK(bases[i], n))
    && (forall i :: 0 <= i < |bases| - 1 ==> bases[i].T != [])
  }

  lemma TermsOver(B: Basis, n: nat)
    requires BasisOK(B, n)
    ensures AllOver(B.H.ms, n)
  {
    forall j | 0 <= j < |B.T| ensures Over(B.H.ms[j], n) {
      TermOver(B.T[j], B.a);
    }
  }

  // Adding a support and its term.
  lemma PushSupport(B: Basis, n: nat, w: BitVector)
    requires BasisOK(B, n) && IsAssignment(w, n) && w != B.a
    ensures BasisOK(B.(T := B.T + [w], H := Terms(B.H.ms + [Term(w, B.a)])), n)
  {
    assert TermsOf(B.T + [w], B.a) == TermsOf(B.T, B.a) + [Term(w, B.a)];
  }

  // ---------- the target ----------

  /** A function with a conjunctive and a disjunctive normal form of it. */
  datatype Target = Target(f: BitVector -> bool, cnf: seq<seq<int>>, dnf: seq<seq<int>>)

  predicate ClauseTrue(c: seq<int>, v: BitVector) {
    exists k :: 0 <= k < |c| && LitTrue(c[k], v)
  }

  ghost predicate TargetOK(tg: Target, n: nat) {
    forall v :: IsAssignment(v, n) ==>
      && (tg.f(v) <==> forall i :: 0 <= i < |tg.cnf| ==> ClauseTrue(tg.cnf[i], v))
      && (tg.f(v) <==> DnfTrue(tg.dnf, v))
  }

  /** The term of a member implies every clause that the point falsifies. */
  lemma TermImpliesClause(u: BitVector, a: BitVector, c: seq<int>, x: BitVector)
    requires |u| == |a| == |x| > 0
    requires ClauseTrue(c, u) && !ClauseTrue(c, a) && MonomialTrue(Term(u, a), x)
    ensures ClauseTrue(c, x)
  {
    TermMeaning(u, a, x);
    var k :| 0 <= k < |c| && LitTrue(c[k], u);
    assert !LitTrue(c[k], a);
    assert LitTrue(c[k], x);
  }

  // u satisfies the term d and differs from a only in variables of d.
  ghost predicate FromTerm(u: BitVector, a: BitVector, d: seq<int>) {
    && MonomialTrue(d, u) && |u| == |a|
    && forall i :: 1 <= i < |u| && u[i] != a[i] ==> HasVar(d, i)
  }

  ghost predicate HasVar(d: seq<int>, i: nat) {
    exists k :: 0 <= k < |d| && Var(d[k]) == i
  }

  /** Such a point is determined by a and d. */
  lemma FromTermUnique(u: BitVector, w: BitVector, a: BitVector, d: seq<int>, n: nat)
    requires IsAssignment(u, n) && IsAssignment(w, n) && IsAssignment(a, n)
    requires FromTerm(u, a, d) && FromTerm(w, a, d)
    ensures u == w
  {
    forall i | 0 <= i < |u| ensures u[i] == w[i] {
      if HasVar(d, i) {
        var k :| 0 <= k < |d| && Var(d[k]) == i;
        assert LitTrue(d[k], u) && LitTrue(d[k], w);
      }
    }
  }

  // No single flip towards a keeps v a member.
  ghost predicate LocalMin(f: BitVector -> bool, v: BitVector, a: BitVector) {
    |v| == |a| && forall i :: 1 <= i < |v| && v[i] != a[i] ==> !f(v[i := a[i]])
  }

  // Flipping a variable that does not occur in a term keeps the term.
  lemma FlipOutside(dnf: Disjunction, d: nat, w: BitVector, i: nat, b: bool)
    requires d < |dnf| && MonomialTrue(dnf[d], w) && i < |w|
    ensures HasVar(dnf[d], i) || DnfTrue(dnf, w[i := b])
  {
    var m := dnf[d];
    if !HasVar(m, i) {
      forall k | 0 <= k < |m| ensures LitTrue(m[k], w[i := b]) {
        assert LitTrue(m[k], w);
      }
    }
  }

  /** A local minimum is the projection of a on a term it satisfies. */
  lemma LocalMinFromTerm(tg: Target, n: nat, w: BitVector, a: BitVector) returns (d: nat)
    requires TargetOK(tg, n) && IsAssignment(w, n) && IsAssignment(a, n) && tg.f(w) && LocalMin(tg.f, w, a)
    ensures d < |tg.dnf| && FromTerm(w, a, tg.dnf[d])
  {
    d :| 0 <= d < |tg.dnf| && MonomialTrue(tg.dnf[d], w);
    forall i | 1 <= i < |w| && w[i] != a[i] ensures HasVar(tg.dnf[d], i) {
      FlipOutside(tg.dnf, d, w, i, a[i]);
      assert IsAssignment(w[i := a[i]], n);
    }
  }

  // ---------- what a consistent teacher guarantees of the bases ----------

  // Support j of B comes from the d-th term.
  ghost predicate Charged(tg: Target, B: Basis, j: nat, d: nat) {
    j < |B.T| && d < |tg.dnf| && FromTerm(B.T[j], B.a, tg.dnf[d])
  }

  ghost predicate IsCharged(tg: Target, B: Basis, j: nat) {
    exists d: nat :: Charged(tg, B, j, d)
  }

  /** The point is no member, the supports are different members, each the projection of the point
      on some term. */
  ghost predicate SupportsOK(tg: Target, B: Basis) {
    && !tg.f(B.a)
    && (forall j :: 0 <= j < |B.T| ==> tg.f(B.T[j]) && IsCharged(tg, B, j))
    && (forall i, j :: 0 <= i < j < |B.T| ==> B.T[i] != B.T[j])
  }

  // Clause c is falsified by basis i and by no earlier one.
  ghost predicate FirstFalsified(tg: Target, bases: seq<Basis>, i: nat, c: nat) {
    && i < |bases| && c < |tg.cnf| && !ClauseTrue(tg.cnf[c], bases[i].a)
    && forall j :: 0 <= j < i ==> ClauseTrue(tg.cnf[c], bases[j].a)
  }

  ghost predicate HasFirst(tg: Target, bases: seq<Basis>, i: nat) {
    exists c: nat :: FirstFalsified(tg, bases, i, c)
  }

  ghost predicate TargetInv(tg: Target, bases: seq<Basis>) {
    && (forall i :: 0 <= i < |bases| ==> SupportsOK(tg, bases[i]))
    && (forall i :: 0 <= i < |bases| ==> HasFirst(tg, bases, i))
  }

  /** A basis has at most as many supports as the target has terms. */
  lemma SupportBound(tg: Target, B: Basis, n: nat)
    requires SupportsOK(tg, B) && PointsOK(B.a, B.T, n)
    ensures |B.T| <= |tg.dnf|
  {
    var ds: seq<nat> := [];
    while |ds| < |B.T|
      invariant |ds| <= |B.T| && forall j :: 0 <= j < |ds| ==> Charged(tg, B, j, ds[j])
    {
      assert IsCharged(tg, B, |ds|);
      var d: nat :| Charged(tg, B, |ds|, d);
      ds := ds + [d];
    }
    forall i, j | 0 <= i < j < |ds| ensures ds[i] != ds[j] {
      if ds[i] == ds[j] {
        assert Charged(tg, B, i, ds[i]) && Charged(tg, B, j, ds[j]);
        FromTermUnique(B.T[i], B.T[j], B.a, tg.dnf[ds[i]], n);
      }
    }
    Pigeonhole(ds, |tg.dnf|);
  }

  /** There are at most as many bases as the target has clauses. */
  lemma BasisBound(tg: Target, bases: seq<Basis>)
    requires TargetInv(tg, bases)
    ensures |bases| <= |tg.cnf|
  {
    var cs: seq<nat> := [];
    while |cs| < |bases|
      invariant |cs| <= |bases| && forall i :: 0 <= i < |cs| ==> FirstFalsified(tg, bases, i, cs[i])
    {
      assert HasFirst(tg, bases, |cs|);
      var c: nat :| FirstFalsified(tg, bases, |cs|, c);
      cs := cs + [c];
    }
    forall i, j | 0 <= i < j < |cs| ensures cs[i] != cs[j] {
      assert FirstFalsified(tg, bases, i, cs[i]) && FirstFalsified(tg, bases, j, cs[j]);
    }
    Pigeonhole(cs, |tg.cnf|);
  }

  function TotalSupports(bases: seq<Basis>): nat {
    if bases == [] then 0 else TotalSupports(bases[..|bases| - 1]) + |bases[|bases| - 1].T|
  }

  lemma {:induction false} TotalBound(bases: seq<Basis>, s: nat)
    requires forall i :: 0 <= i < |bases| ==> |bases[i].T| <= s
    ensures TotalSupports(bases) <= |bases| * s
  {
    if bases == [] {
    } else {
      TotalBound(bases[..|bases| - 1], s);
      assert |bases| * s == (|bases| - 1) * s + s;
    }
  }

  lemma {:induction false} TotalUpdate(bases: seq<Basis>, i: nat, B: Basis)
    requires i < |bases|
    ensures TotalSupports(bases[i := B]) + |bases[i].T| == TotalSupports(bases) + |B.T|
  {
    var n := |bases| - 1;
    if i < n {
      TotalUpdate(bases[..n], i, B);
      assert bases[i := B][..n] == bases[..n][i := B];
    } else {
      assert bases[i := B][..n] == bases[..n];
    }
  }

  // The number of equivalence queries that is always enough.
  function QueryBound(tg: Target): (bound: nat)
    ensures bound > 0
  {
    |tg.cnf| * |tg.dnf| + |tg.cnf| + 1
  }

  /** Bases and supports together are bounded by the sizes of the normal forms. */
  lemma SizeBound(tg: Target, bases: seq<Basis>, n: nat)
    requires TargetInv(tg, bases) && BasesOK(bases, n)
    ensures |bases| + TotalSupports(bases) < QueryBound(tg)
  {
    hide SupportsOK, HasFirst, TotalSupports;
    BasisBound(tg, bases);
    forall i | 0 <= i < |bases| ensures |bases[i].T| <= |tg.dnf| {
      SupportBound(tg, bases[i], n);
    }
    TotalBound(bases, |tg.dnf|);
    ProductMono(|bases|, |tg.cnf|, |tg.dnf|);
  }

  // ---------- what any teacher guarantees of the bases ----------

  /** The points of the bases are different, and so are the supports of each. */
  ghost predicate Separated(bases: seq<Basis>) {
    && (forall i, j :: 0 <= i < j < |bases| ==> bases[i].a != bases[j].a)
    && (forall i :: 0 <= i < |bases| ==> Different(bases[i].T))
  }

  // The number of equivalence queries that is enough whatever the teacher answers.
  function AnyTeacherBound(n: nat): (bound: nat)
    ensures bound > 0
  {
    Power(2, n) * Power(2, n) + 1
  }

  // The point of a basis and its supports are different assignments.
  lemma SeparatedSupports(B: Basis, n: nat)
    requires BasisOK(B, n) && Different(B.T)
    ensures |B.T| + 1 <= Power(2, n)
  {
    var vs := B.T + [B.a];
    forall i | 0 <= i < |vs| ensures IsAssignment(vs[i], n) {
    }
    AssignmentCount(vs, n);
  }

  lemma SeparatedBases(bases: seq<Basis>, n: nat)
    requires Separated(bases) && BasesOK(bases, n)
    ensures |bases| <= Power(2, n)
  {
    var vs := seq(|bases|, i requires 0 <= i < |bases| => bases[i].a);
    AssignmentCount(vs, n);
  }

  lemma PairBound(b: nat, total: nat, p: nat)
    requires b <= p && p > 0 && total <= b * (p - 1)
    ensures b + total <= p * p
  {
    assert b + b * (p - 1) == b * p;
    ProductMono(b, p, p);
  }

  /** Whatever the teacher answers, bases and supports together do not outnumber the pairs of
      assignments. */
  lemma SeparatedBound(bases: seq<Basis>, n: nat)
    requires Separated(bases) && BasesOK(bases, n)
    ensures |bases| + TotalSupports(bases) < AnyTeacherBound(n)
  {
    hide TotalSupports, Power, BasisOK, Different;
    var p := Power(2, n);
    PowerPositive(2, n);
    SeparatedBases(bases, n);
    forall i | 0 <= i < |bases| ensures |bases[i].T| <= p - 1 {
      SeparatedSupports(bases[i], n);
    }
    TotalBound(bases, p - 1);
    PairBound(|bases|, TotalSupports(bases), p);
  }

  /** The hypothesis of a basis does not hold at its own point. */
  lemma FalseAtPoint(B: Basis, n: nat)
    requires BasisOK(B, n)
    ensures !DnfTrue(B.H.ms, B.a)
  {
    hide MonomialTrue;
    forall j | 0 <= j < |B.T| ensures !MonomialTrue(B.H.ms[j], B.a) {
      TermMeaning(B.T[j], B.a, B.a);
    }
  }

  /** A point at which all hypotheses hold is new. */
  lemma SeparatedPoint(bases: seq<Basis>, n: nat, v: BitVector)
    requires Separated(bases) && BasesOK(bases, n)
    requires forall i :: 0 <= i < |bases| ==> DnfTrue(bases[i].H.ms, v)
    ensures Separated(bases + [Basis(v, [], Terms([]))])
    ensures TotalSupports(bases + [Basis(v, [], Terms([]))]) == TotalSupports(bases)
  {
    hide DnfTrue, TermsOf;
    forall i | 0 <= i < |bases| ensures bases[i].a != v {
      FalseAtPoint(bases[i], n);
    }
    assert (bases + [Basis(v, [], Terms([]))])[..|bases|] == bases;
  }

  /** A support found from a point outside the hypothesis is new. */
  lemma SeparatedSupport(bases: seq<Basis>, n: nat, i: nat, v: BitVector, w: BitVector)
    requires Separated(bases) && BasesOK(bases, n) && i < |bases|
    requires IsAssignment(v, n) && IsAssignment(w, n) && !DnfTrue(bases[i].H.ms, v) && Between(w, v, bases[i].a)
    ensures var B := bases[i];
            var bases' := bases[i := B.(T := B.T + [w], H := Terms(B.H.ms + [Term(w, B.a)]))];
            Separated(bases') && TotalSupports(bases') == TotalSupports(bases) + 1
  {
    var B := bases[i];
    var B' := B.(T := B.T + [w], H := Terms(B.H.ms + [Term(w, B.a)]));
    OutsideOld(B, n, v, w);
    TotalUpdate(bases, i, B');
  }

  // ---------- steps ----------

  // A clause falsified where the hypothesis of B holds is not falsified by the point of B.
  lemma HypothesisImplies(tg: Target, B: Basis, n: nat, c: nat, v: BitVector)
    requires TargetOK(tg, n) && SupportsOK(tg, B) && BasisOK(B, n) && IsAssignment(v, n) && DnfTrue(B.H.ms, v)
    requires c < |tg.cnf| && !ClauseTrue(tg.cnf[c], v)
    ensures ClauseTrue(tg.cnf[c], B.a)
  {
    var j :| 0 <= j < |B.H.ms| && MonomialTrue(B.H.ms[j], v);
    assert tg.f(B.T[j]) && B.H.ms[j] == Term(B.T[j], B.a);
    assert IsAssignment(B.T[j], n) && ClauseTrue(tg.cnf[c], B.T[j]);
    if !ClauseTrue(tg.cnf[c], B.a) { TermImpliesClause(B.T[j], B.a, tg.cnf[c], v); }
  }

  /** A non-member on which all hypotheses hold falsifies a clause that no basis falsifies. */
  lemma NewBasis(tg: Target, bases: seq<Basis>, n: nat, v: BitVector)
    requires TargetOK(tg, n) && TargetInv(tg, bases) && BasesOK(bases, n) && IsAssignment(v, n) && !tg.f(v)
    requires forall i :: 0 <= i < |bases| ==> DnfTrue(bases[i].H.ms, v)
    ensures TargetInv(tg, bases + [Basis(v, [], Terms([]))])
  {
    hide SupportsOK, BasisOK, DnfTrue, ClauseTrue;
    var bases' := bases + [Basis(v, [], Terms([]))];
    var c :| 0 <= c < |tg.cnf| && !ClauseTrue(tg.cnf[c], v);
    forall i | 0 <= i < |bases| ensures ClauseTrue(tg.cnf[c], bases[i].a) {
      HypothesisImplies(tg, bases[i], n, c, v);
    }
    assert FirstFalsified(tg, bases', |bases|, c);
    forall i | 0 <= i < |bases| ensures HasFirst(tg, bases', i) {
      assert HasFirst(tg, bases, i);
      var c: nat :| FirstFalsified(tg, bases, i, c);
      assert FirstFalsified(tg, bases', i, c);
    }
    EmptySupports(tg, v);
  }

  lemma EmptySupports(tg: Target, v: BitVector)
    requires !tg.f(v)
    ensures SupportsOK(tg, Basis(v, [], Terms([])))
  {
  }

  // Between a and v: bits that differ from a are those of v.
  predicate Between(w: BitVector, v: BitVector, a: BitVector) {
    |w| == |v| == |a| && forall k :: 0 <= k < |w| ==> w[k] == v[k] || w[k] == a[k]
  }

  /** A new support lies outside the old hypothesis. */
  lemma NewSupport(tg: Target, B: Basis, n: nat, v: BitVector, w: BitVector)
    requires TargetOK(tg, n) && BasisOK(B, n) && SupportsOK(tg, B)
    requires IsAssignment(v, n) && !DnfTrue(B.H.ms, v)
    requires IsAssignment(w, n) && tg.f(w) && LocalMin(tg.f, w, B.a) && Between(w, v, B.a)
    ensures w != B.a && !DnfTrue(B.H.ms, w)
    ensures SupportsOK(tg, B.(T := B.T + [w], H := Terms(B.H.ms + [Term(w, B.a)])))
  {
    OutsideOld(B, n, v, w);
    var d := LocalMinFromTerm(tg, n, w, B.a);
    ChargeNew(tg, B, w, d);
  }

  lemma OutsideOld(B: Basis, n: nat, v: BitVector, w: BitVector)
    requires BasisOK(B, n) && IsAssignment(v, n) && IsAssignment(w, n) && !DnfTrue(B.H.ms, v) && Between(w, v, B.a)
    ensures !DnfTrue(B.H.ms, w) && forall j :: 0 <= j < |B.T| ==> B.T[j] != w
  {
    forall j | 0 <= j < |B.T| ensures !MonomialTrue(B.H.ms[j], w) && B.T[j] != w {
      TermMeaning(B.T[j], B.a, v);
      TermMeaning(B.T[j], B.a, w);
      assert B.H.ms[j] == Term(B.T[j], B.a);
      assert !MonomialTrue(B.H.ms[j], v);
    }
  }

  lemma ChargeNew(tg: Target, B: Basis, w: BitVector, d: nat)
    requires SupportsOK(tg, B) && tg.f(w) && d < |tg.dnf| && FromTerm(w, B.a, tg.dnf[d])
    requires forall j :: 0 <= j < |B.T| ==> B.T[j] != w
    requires |w| == |B.a|
    ensures SupportsOK(tg, B.(T := B.T + [w], H := Terms(if B.H.Terms? then B.H.ms + [Term(w, B.a)] else [])))
  {
    hide FromTerm;
    var B' := B.(T := B.T + [w], H := Terms(if B.H.Terms? then B.H.ms + [Term(w, B.a)] else []));
    assert Charged(tg, B', |B.T|, d);
    forall j | 0 <= j < |B.T| ensures IsCharged(tg, B', j) {
      assert IsCharged(tg, B, j);
      var d: nat :| Charged(tg, B, j, d);
      assert Charged(tg, B', j, d);
    }
  }

  lemma UpdateInv(tg: Target, bases: seq<Basis>, i: nat, B: Basis)
    requires TargetInv(tg, bases) && i < |bases| && SupportsOK(tg, B) && B.a == bases[i].a
    ensures TargetInv(tg, bases[i := B])
  {
    var bases' := bases[i := B];
    forall k | 0 <= k < |bases'| ensures HasFirst(tg, bases', k) {
      assert HasFirst(tg, bases, k);
      var c: nat :| FirstFalsified(tg, bases, k, c);
      assert FirstFalsified(tg, bases', k, c);
    }
  }
}
