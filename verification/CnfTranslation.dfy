/** The translation into conjunctive normal form: every inner node gets a variable of its own,
    and clauses that make the node true whenever the variable is. */
module CnfTranslation {
  import opened BoolFormulas

  function NegVar(x: nat): Formula {
    Literal(-(x as int))
  }

  // The number of nodes that are no literals.
  function Inner(f: Formula): nat
    decreases f, 1, 0
  {
    if f.Literal? then 0 else 1 + InnerUpTo(f, |f.fs|)
  }

  // Those of the first k children.
  function InnerUpTo(f: Formula, k: nat): nat
    requires !f.Literal? && k <= |f.fs|
    decreases f, 0, k
  {
    if k == 0 then 0 else InnerUpTo(f, k - 1) + Inner(f.fs[k - 1])
  }

  // The variable of the k-th child of a node with variable x.
  function ChildVar(f: Formula, k: nat, x: nat): nat
    requires !f.Literal? && k < |f.fs|
  {
    x + InnerUpTo(f, k) + 1
  }

  function ChildLit(f: Formula, k: nat, x: nat): Formula
    requires !f.Literal? && k < |f.fs|
  {
    if f.fs[k].Literal? then f.fs[k] else Literal(ChildVar(f, k, x))
  }

  // Variable x implies the disjunction of the first k children.
  function OrClause(f: Formula, k: nat, x: nat): seq<Formula>
    requires !f.Literal? && k <= |f.fs|
  {
    [NegVar(x)] + seq(k, i requires 0 <= i < k => ChildLit(f, i, x))
  }

  /** The clauses for node f with variable x. */
  function Clauses(f: Formula, x: nat): seq<Formula>
    requires !f.Literal?
    decreases f, 1, 0
  {
    (if f.Or? then [Or(OrClause(f, |f.fs|, x))] else []) + ClausesUpTo(f, |f.fs|, x)
  }

  // In a conjunction, variable x implies the k-th child.
  function Link(f: Formula, k: nat, x: nat): seq<Formula>
    requires !f.Literal? && k < |f.fs|
  {
    if f.And? then [Or([NegVar(x), ChildLit(f, k, x)])] else []
  }

  // The clauses for the k-th child.
  function ChildPart(f: Formula, k: nat, x: nat): seq<Formula>
    requires !f.Literal? && k < |f.fs|
    decreases f, 0, k
  {
    if f.fs[k].Literal? then [] else Clauses(f.fs[k], ChildVar(f, k, x))
  }

  // Those for the first k children.
  function ClausesUpTo(f: Formula, k: nat, x: nat): seq<Formula>
    requires !f.Literal? && k <= |f.fs|
    decreases f, 0, k
  {
    if k == 0 then [] else ClausesUpTo(f, k - 1, x) + Link(f, k - 1, x) + ChildPart(f, k - 1, x)
  }

  /** The translation of a formula whose variables are at most numVar. */
  function Cnf(f: Formula, numVar: nat): Formula {
    if f.Literal? then f
    else And([Literal(numVar + 1)] + Clauses(f, numVar + 1))
  }

  // ---------- the translation as a program ----------

  class CnfBuilder {
    var ret: seq<Formula>    // the conjuncts so far
    var nextFresh: nat

    constructor (conjuncts: seq<Formula>, x: nat)
      ensures ret == conjuncts && nextFresh == x
    {
      ret, nextFresh := conjuncts, x;
    }

    // Sets one entry of a disjunction that has been added already.
    method SetEntry(pos: nat, idx: nat, g: Formula)
      requires pos < |ret| && ret[pos].Or? && idx < |ret[pos].fs|
      modifies `ret
      ensures ret == old(ret)[pos := Or(old(ret)[pos].fs[idx := g])]
    {
      ret := ret[pos := Or(ret[pos].fs[idx := g])];
    }

    // Appends a disjunction of n entries still to be set.
    method AddDisjunction(n: nat) returns (pos: nat)
      modifies `ret
      ensures pos == |old(ret)| && ret == old(ret) + [Or(seq(n, _ => Literal(0)))]
    {
      pos := |ret|;
      ret := ret + [Or(seq(n, _ => Literal(0)))];
    }

    // The literal that stands for the k-th child.
    method TakeChild(f: Formula, k: nat, ghost x: nat) returns (g: Formula)
      requires !f.Literal? && k < |f.fs| && nextFresh == x + InnerUpTo(f, k)
      modifies `nextFresh
      ensures g == ChildLit(f, k, x)
      ensures nextFresh == if f.fs[k].Literal? then old(nextFresh) else ChildVar(f, k, x)
    {
      if f.fs[k].Literal? {
        g := Literal(f.fs[k].l);
      } else {
        nextFresh := nextFresh + 1;
        g := Literal(nextFresh);
      }
    }

    /** Appends the clauses of an inner node whose variable is nextFresh. */
    method AddClauses(f: Formula)
      requires !f.Literal?
      modifies this
      ensures ret == old(ret) + Clauses(f, old(nextFresh))
      ensures nextFresh + 1 == old(nextFresh) + Inner(f)
      decreases f, 1
    {
      if f.And? {
        AddConjunction(f);
      } else {
        AddDisjunctionNode(f);
      }
    }

    // Adds the clause that links the variable x to the k-th child of a conjunction.
    method AddLink(f: Formula, k: nat, curNeg: Formula, ghost x: nat)
      requires f.And? && k < |f.fs| && nextFresh == x + InnerUpTo(f, k) && curNeg == NegVar(x)
      modifies this
      ensures ret == old(ret) + [Or([NegVar(x), ChildLit(f, k, x)])]
      ensures nextFresh == if f.fs[k].Literal? then old(nextFresh) else ChildVar(f, k, x)
    {
      var dis := AddDisjunction(2);
      SetEntry(dis, 0, curNeg);
      var g := TakeChild(f, k, x);
      SetEntry(dis, 1, g);
      assert ret[dis].fs == [curNeg, g];
    }

    method AddConjunction(f: Formula)
      requires f.And?
      modifies this
      ensures ret == old(ret) + Clauses(f, old(nextFresh))
      ensures nextFresh + 1 == old(nextFresh) + Inner(f)
      decreases f, 0
    {
      hide Clauses, ChildLit;
      ghost var x, ret0 := nextFresh, ret;
      var curNeg := NegVar(nextFresh);
      for i := 0 to |f.fs|
        invariant ret == ret0 + ClausesUpTo(f, i, x) && nextFresh == x + InnerUpTo(f, i)
      {
        AddLink(f, i, curNeg, x);
        if !f.fs[i].Literal? {
          AddClauses(f.fs[i]);
        }
      }
      ConjunctionClauses(f, x);
    }

    method AddDisjunctionNode(f: Formula)
      requires f.Or?
      modifies this
      ensures ret == old(ret) + Clauses(f, old(nextFresh))
      ensures nextFresh + 1 == old(nextFresh) + Inner(f)
      decreases f, 0
    {
      hide Clauses, ChildLit, OrClause;
      ghost var x, ret0 := nextFresh, ret;
      var curNeg := NegVar(nextFresh);
      var dis := AddDisjunction(1 + |f.fs|);
      SetEntry(dis, 0, curNeg);
      OrClauseStart(f, x);
      for i := 0 to |f.fs|
        invariant nextFresh == x + InnerUpTo(f, i) && |ret0| == dis < |ret| && ret[..dis] == ret0
        invariant ret[dis].Or? && |ret[dis].fs| == 1 + |f.fs| && ret[dis].fs[..i + 1] == OrClause(f, i, x)
        invariant ret[dis + 1..] == ClausesUpTo(f, i, x)
      {
        ghost var d, rest := ret[dis].fs, ret[dis + 1..];
        OrClauseNext(f, i, x);
        var g := TakeChild(f, i, x);
        SetEntry(dis, i + 1, g);
        ghost var ret1 := ret;
        assert ret1[dis].fs[..i + 2] == d[..i + 1] + [g];
        assert ret1[dis + 1..] == rest;
        if !f.fs[i].Literal? {
          AddClauses(f.fs[i]);
          assert ret[dis + 1..] == rest + Clauses(f.fs[i], ChildVar(f, i, x));
        }
      }
      assert ret == ret[..dis] + ([ret[dis]] + ret[dis + 1..]);
      assert ret[dis].fs == ret[dis].fs[..|f.fs| + 1];
      DisjunctionClauses(f, x);
    }
  }

  lemma ConjunctionClauses(f: Formula, x: nat)
    requires f.And?
    ensures Clauses(f, x) == ClausesUpTo(f, |f.fs|, x)
  {
  }

  lemma DisjunctionClauses(f: Formula, x: nat)
    requires f.Or?
    ensures Clauses(f, x) == [Or(OrClause(f, |f.fs|, x))] + ClausesUpTo(f, |f.fs|, x)
  {
  }

  lemma OrClauseStart(f: Formula, x: nat)
    requires !f.Literal?
    ensures OrClause(f, 0, x) == [NegVar(x)]
  {
  }

  lemma OrClauseNext(f: Formula, k: nat, x: nat)
    requires !f.Literal? && k < |f.fs|
    ensures OrClause(f, k + 1, x) == OrClause(f, k, x) + [ChildLit(f, k, x)]
  {
  }

  method ToCnf(f: Formula, numVar: nat) returns (g: Formula)
    ensures g == Cnf(f, numVar)
  {
    if f.Literal? {
      return f;
    }
    var b := new CnfBuilder([Literal(numVar + 1)], numVar + 1);
    b.AddClauses(f);
    g := And(b.ret);
  }

  // ---------- what the clauses say ----------

  ghost predicate AllHold(A: World, cs: seq<Formula>) {
    forall i :: 0 <= i < |cs| ==> Eval(A, cs[i])
  }

  lemma AllHoldConcat(A: World, cs: seq<Formula>, ds: seq<Formula>)
    ensures AllHold(A, cs + ds) <==> AllHold(A, cs) && AllHold(A, ds)
  {
    if AllHold(A, cs + ds) {
      forall i | 0 <= i < |cs| ensures Eval(A, cs[i]) { assert (cs + ds)[i] == cs[i]; }
      forall i | 0 <= i < |ds| ensures Eval(A, ds[i]) { assert (cs + ds)[|cs| + i] == ds[i]; }
    }
  }

  // What holds of all clauses holds of those for each child.
  lemma {:induction false} ChildClauses(A: World, f: Formula, k: nat, i: nat, x: nat)
    requires !f.Literal? && i < k <= |f.fs| && AllHold(A, ClausesUpTo(f, k, x))
    ensures f.And? ==> Eval(A, Or([NegVar(x), ChildLit(f, i, x)]))
    ensures !f.fs[i].Literal? ==> AllHold(A, Clauses(f.fs[i], ChildVar(f, i, x)))
    decreases k
  {
    hide AllHold, Eval, Clauses, ChildLit;
    var head := ClausesUpTo(f, k - 1, x);
    AllHoldConcat(A, head + Link(f, k - 1, x), ChildPart(f, k - 1, x));
    AllHoldConcat(A, head, Link(f, k - 1, x));
    if i < k - 1 {
      ChildClauses(A, f, k - 1, i, x);
    } else if f.And? {
      OneHolds(A, Or([NegVar(x), ChildLit(f, i, x)]));
    }
  }

  lemma OneHolds(A: World, c: Formula)
    ensures AllHold(A, [c]) <==> Eval(A, c)
  {
    assert [c][0] == c;
  }

  /** Soundness: where the clauses and the variable of a node hold, the node holds. */
  lemma {:induction false} ClausesSound(A: World, f: Formula, x: nat)
    requires !f.Literal? && x > 0 && AllHold(A, Clauses(f, x)) && x in A
    ensures Eval(A, f)
    decreases f
  {
    var top := if f.Or? then [Or(OrClause(f, |f.fs|, x))] else [];
    AllHoldConcat(A, top, ClausesUpTo(f, |f.fs|, x));
    forall i | 0 <= i < |f.fs| && Eval(A, ChildLit(f, i, x)) ensures Eval(A, f.fs[i]) {
      ChildClauses(A, f, |f.fs|, i, x);
      if !f.fs[i].Literal? { ClausesSound(A, f.fs[i], ChildVar(f, i, x)); }
    }
    if f.And? {
      forall i | 0 <= i < |f.fs| ensures Eval(A, f.fs[i]) {
        ChildClauses(A, f, |f.fs|, i, x);
        var c := [NegVar(x), ChildLit(f, i, x)];
        var j :| 0 <= j < |c| && Eval(A, c[j]);
        assert !Eval(A, NegVar(x));
      }
    } else {
      var c := OrClause(f, |f.fs|, x);
      assert Eval(A, top[0]);
      var j :| 0 <= j < |c| && Eval(A, c[j]);
      assert !Eval(A, NegVar(x));
      assert c[j] == ChildLit(f, j - 1, x);
    }
  }

  // ---------- the variables of the clauses ----------

  ghost predicate VarsOf(cs: seq<Formula>, f: Formula, x: nat, y: nat) {
    forall i, v: nat :: 0 <= i < |cs| && Occurs(v, cs[i]) ==> Occurs(v, f) || x <= v < y
  }

  lemma VarsOfConcat(cs: seq<Formula>, ds: seq<Formula>, f: Formula, x: nat, y: nat)
    requires VarsOf(cs, f, x, y) && VarsOf(ds, f, x, y)
    ensures VarsOf(cs + ds, f, x, y)
  {
    forall i, v: nat | 0 <= i < |cs + ds| && Occurs(v, (cs + ds)[i]) ensures Occurs(v, f) || x <= v < y {
      if i < |cs| { assert (cs + ds)[i] == cs[i]; } else { assert (cs + ds)[i] == ds[i - |cs|]; }
    }
  }

  lemma {:induction false} InnerMono(f: Formula, i: nat, k: nat)
    requires !f.Literal? && i <= k <= |f.fs|
    ensures InnerUpTo(f, i) <= InnerUpTo(f, k)
    decreases k
  {
    if i >= k {
    } else {
      InnerMono(f, i, k - 1);
    }
  }

  lemma ChildLitVars(f: Formula, k: nat, x: nat, v: nat)
    requires !f.Literal? && k < |f.fs| && Occurs(v, ChildLit(f, k, x))
    ensures Occurs(v, f) || (v == ChildVar(f, k, x) && !f.fs[k].Literal? && x < v < x + 1 + InnerUpTo(f, k + 1))
  {
    if f.fs[k].Literal? { assert Occurs(v, f.fs[k]); }
  }

  /** The clauses of a node mention its own variables and the fresh ones only. */
  lemma {:induction false} ClausesVars(f: Formula, x: nat)
    requires !f.Literal?
    ensures VarsOf(Clauses(f, x), f, x, x + Inner(f))
    decreases f, 1, 0
  {
    PartVars(f, |f.fs|, x);
    if f.Or? {
      var c := OrClause(f, |f.fs|, x);
      forall v: nat | Occurs(v, Or(c)) ensures Occurs(v, f) || x <= v < x + Inner(f) {
        var j :| 0 <= j < |c| && Occurs(v, c[j]);
        if j > 0 {
          ChildLitVars(f, j - 1, x, v);
          InnerMono(f, j, |f.fs|);
        }
      }
      assert VarsOf([Or(c)], f, x, x + Inner(f));
      VarsOfConcat([Or(c)], ClausesUpTo(f, |f.fs|, x), f, x, x + Inner(f));
    } else {
      VarsOfConcat([], ClausesUpTo(f, |f.fs|, x), f, x, x + Inner(f));
    }
  }

  lemma {:induction false} PartVars(f: Formula, k: nat, x: nat)
    requires !f.Literal? && k <= |f.fs|
    ensures VarsOf(ClausesUpTo(f, k, x), f, x, x + 1 + InnerUpTo(f, k))
    decreases f, 0, k
  {
    if k > 0 {
      hide VarsOf, Clauses, Link, ChildPart;
      var y := x + 1 + InnerUpTo(f, k);
      PartVars(f, k - 1, x);
      WidenVars(ClausesUpTo(f, k - 1, x), f, x, x + 1 + InnerUpTo(f, k - 1), x, y);
      LinkVars(f, k - 1, x);
      ChildPartVars(f, k - 1, x);
      WidenVars(ChildPart(f, k - 1, x), f, x + 1, y, x, y);
      VarsOfConcat(ClausesUpTo(f, k - 1, x), Link(f, k - 1, x), f, x, y);
      VarsOfConcat(ClausesUpTo(f, k - 1, x) + Link(f, k - 1, x), ChildPart(f, k - 1, x), f, x, y);
    } else {
      NoVars(f, x, x + 1);
    }
  }

  lemma NoVars(f: Formula, x: nat, y: nat)
    ensures VarsOf([], f, x, y)
  {
  }

  lemma WidenVars(cs: seq<Formula>, f: Formula, x: nat, y: nat, x': nat, y': nat)
    requires VarsOf(cs, f, x, y) && x' <= x && y <= y'
    ensures VarsOf(cs, f, x', y')
  {
  }

  lemma {:induction false} ChildPartVars(f: Formula, k: nat, x: nat)
    requires !f.Literal? && k < |f.fs|
    ensures VarsOf(ChildPart(f, k, x), f, x + 1, x + 1 + InnerUpTo(f, k + 1))
    decreases f, 0, k
  {
    hide Clauses;
    if !f.fs[k].Literal? {
      ClausesVars(f.fs[k], ChildVar(f, k, x));
      ChildVars(ChildPart(f, k, x), f, k, ChildVar(f, k, x), x + 1 + InnerUpTo(f, k + 1));
      WidenVars(ChildPart(f, k, x), f, ChildVar(f, k, x), x + 1 + InnerUpTo(f, k + 1), x + 1,
          x + 1 + InnerUpTo(f, k + 1));
    }
  }

  lemma ChildVars(cs: seq<Formula>, f: Formula, k: nat, x: nat, y: nat)
    requires !f.Literal? && k < |f.fs| && VarsOf(cs, f.fs[k], x, y)
    ensures VarsOf(cs, f, x, y)
  {
    forall i, v: nat | 0 <= i < |cs| && Occurs(v, cs[i]) ensures Occurs(v, f) || x <= v < y {
      if Occurs(v, f.fs[k]) { assert Occurs(v, f); }
    }
  }

  lemma LinkVars(f: Formula, k: nat, x: nat)
    requires !f.Literal? && k < |f.fs|
    ensures VarsOf(Link(f, k, x), f, x, x + 1 + InnerUpTo(f, k + 1))
  {
    if f.And? {
      var c := [NegVar(x), ChildLit(f, k, x)];
      forall v: nat | Occurs(v, Or(c)) ensures Occurs(v, f) || x <= v < x + 1 + InnerUpTo(f, k + 1) {
        var j :| 0 <= j < |c| && Occurs(v, c[j]);
        if j == 1 { ChildLitVars(f, k, x, v); }
      }
    }
  }

  // ---------- extending an assignment ----------

  // B is A but for the variables x, ..., y - 1.
  ghost predicate SameBut(A: World, B: World, x: nat, y: nat) {
    forall v: nat :: v < x || v >= y ==> (v in A <==> v in B)
  }

  // None of the variables x, ..., y - 1 occurs in f.
  ghost predicate Avoids(f: Formula, x: nat, y: nat) {
    forall v: nat :: Occurs(v, f) ==> v < x || v >= y
  }

  lemma SameButEval(A: World, B: World, x: nat, y: nat, f: Formula)
    requires SameBut(A, B, x, y) && Avoids(f, x, y)
    ensures Eval(A, f) <==> Eval(B, f)
  {
    EvalAgree(A, B, f);
  }

  // Changing later variables keeps the clauses of earlier children.
  lemma KeepHold(A: World, B: World, cs: seq<Formula>, f: Formula, x: nat, y: nat, z: nat)
    requires AllHold(A, cs) && VarsOf(cs, f, x, y) && Avoids(f, y, z) && SameBut(A, B, y, z) && x <= y
    ensures AllHold(B, cs)
  {
    forall i | 0 <= i < |cs| ensures Eval(B, cs[i]) {
      forall v: nat | Occurs(v, cs[i]) ensures v in A <==> v in B {
        assert Occurs(v, f) || x <= v < y;
      }
      EvalAgree(A, B, cs[i]);
    }
  }

  // The value of the literal that stands for a child is that of the child.
  ghost predicate Faithful(B: World, f: Formula, k: nat, x: nat)
    requires !f.Literal? && k <= |f.fs|
  {
    forall i :: 0 <= i < k ==> (Eval(B, ChildLit(f, i, x)) <==> Eval(B, f.fs[i]))
  }

  // The clauses of the children, without what links them to x.
  function Below(f: Formula, k: nat, x: nat): seq<Formula>
    requires !f.Literal? && k <= |f.fs|
  {
    if k == 0 then [] else Below(f, k - 1, x) + ChildPart(f, k - 1, x)
  }

  lemma {:induction false} BelowVars(f: Formula, k: nat, x: nat)
    requires !f.Literal? && k <= |f.fs|
    ensures VarsOf(Below(f, k, x), f, x + 1, x + 1 + InnerUpTo(f, k))
  {
    if k > 0 {
      hide VarsOf, Clauses, ChildPart;
      BelowVars(f, k - 1, x);
      var y := x + 1 + InnerUpTo(f, k);
      WidenVars(Below(f, k - 1, x), f, x + 1, x + 1 + InnerUpTo(f, k - 1), x + 1, y);
      ChildPartVars(f, k - 1, x);
      VarsOfConcat(Below(f, k - 1, x), ChildPart(f, k - 1, x), f, x + 1, y);
    } else {
      NoVars(f, x + 1, x + 1);
    }
  }

  lemma NarrowAvoids(f: Formula, x: nat, y: nat, x': nat, y': nat)
    requires Avoids(f, x, y) && x <= x' && y' <= y
    ensures Avoids(f, x', y')
  {
  }

  lemma ChildAvoids(f: Formula, i: nat, x: nat, y: nat, x': nat, y': nat)
    requires !f.Literal? && i < |f.fs| && Avoids(f, x, y) && x <= x' && y' <= y
    ensures Avoids(f.fs[i], x', y')
  {
    forall v: nat | Occurs(v, f.fs[i]) ensures v < x' || v >= y' {
      assert Occurs(v, f);
    }
  }

  /** Completeness: every assignment extends to the fresh variables, if these do not occur in the
      formula, so that all clauses hold and each variable has the value of its node. */
  lemma {:induction false} Extend(A: World, f: Formula, x: nat) returns (B: World)
    requires !f.Literal? && Avoids(f, x, x + Inner(f)) && x > 0
    ensures SameBut(A, B, x, x + Inner(f)) && AllHold(B, Clauses(f, x)) && (x in B <==> Eval(A, f))
    decreases f, 1, 0
  {
    var C := ExtendUpTo(A, f, |f.fs|, x);
    B := iset v: nat | if v == x then Eval(A, f) else v in C;
    assert SameBut(C, B, x, x + 1);
    SameButEval(A, C, x, x + Inner(f), f);
    SameButEval(C, B, x, x + 1, f);
    SetTop(C, B, f, x);
  }

  lemma {:induction false} ExtendUpTo(A: World, f: Formula, k: nat, x: nat) returns (B: World)
    requires !f.Literal? && k <= |f.fs| && Avoids(f, x, x + 1 + InnerUpTo(f, k)) && x > 0
    ensures SameBut(A, B, x + 1, x + 1 + InnerUpTo(f, k)) && AllHold(B, Below(f, k, x)) && Faithful(B, f, k, x)
    decreases f, 0, k
  {
    if k == 0 {
      B := A;
    } else {
      var C := ExtendUpTo(A, f, k - 1, x);
      B := C;
      var y, z := ChildVar(f, k - 1, x), x + 1 + InnerUpTo(f, k);
      if !f.fs[k - 1].Literal? {
        hide AllHold, VarsOf, Clauses, Eval, ChildLit, Avoids;
        NarrowAvoids(f, x, z, y, z);
        ChildAvoids(f, k - 1, x, z, y, z);
        B := Extend(C, f.fs[k - 1], y);
        BelowVars(f, k - 1, x);
        KeepHold(C, B, Below(f, k - 1, x), f, x + 1, y, z);
        AllHoldConcat(B, Below(f, k - 1, x), Clauses(f.fs[k - 1], y));
        StillFaithful(C, B, f, k, x);
      } else {
        assert Below(f, k, x) == Below(f, k - 1, x);
        assert ChildLit(f, k - 1, x) == f.fs[k - 1];
      }
    }
  }

  lemma StillFaithful(C: World, B: World, f: Formula, k: nat, x: nat)
    requires !f.Literal? && 0 < k <= |f.fs| && !f.fs[k - 1].Literal? && Faithful(C, f, k - 1, x)
    requires Avoids(f, x, x + 1 + InnerUpTo(f, k))
    requires var y := ChildVar(f, k - 1, x);
             SameBut(C, B, y, y + Inner(f.fs[k - 1])) && (y in B <==> Eval(C, f.fs[k - 1]))
    ensures Faithful(B, f, k, x)
  {
    var y, z := ChildVar(f, k - 1, x), x + 1 + InnerUpTo(f, k);
    forall i | 0 <= i < k ensures Eval(B, ChildLit(f, i, x)) <==> Eval(B, f.fs[i]) {
      ChildAvoids(f, i, x, z, y, z);
      SameButEval(C, B, y, z, f.fs[i]);
      if i < k - 1 {
        InnerMono(f, i + 1, k - 1);
        forall v: nat | Occurs(v, ChildLit(f, i, x)) ensures v < y || v >= z {
          ChildLitVars(f, i, x, v);
        }
        SameButEval(C, B, y, z, ChildLit(f, i, x));
      }
    }
  }

  // The variable x gets the value of the node: then the linking clauses hold too.
  lemma SetTop(C: World, B: World, f: Formula, x: nat)
    requires !f.Literal? && Avoids(f, x, x + 1) && x > 0
    requires AllHold(C, Below(f, |f.fs|, x)) && Faithful(C, f, |f.fs|, x)
    requires SameBut(C, B, x, x + 1) && (x in B <==> Eval(B, f))
    ensures AllHold(B, Clauses(f, x))
  {
    BelowKept(C, B, f, x);
    forall i | 0 <= i < |f.fs| ensures Eval(B, ChildLit(f, i, x)) <==> Eval(B, f.fs[i]) {
      ChildAvoids(f, i, x, x + 1, x, x + 1);
      SameButEval(C, B, x, x + 1, f.fs[i]);
      forall v: nat | Occurs(v, ChildLit(f, i, x)) ensures v in C <==> v in B {
        if f.fs[i].Literal? { assert Occurs(v, f.fs[i]); }
      }
      EvalAgree(C, B, ChildLit(f, i, x));
    }
    LinksHold(B, f, |f.fs|, x);
    if f.Or? {
      TopHolds(B, f, x);
      AllHoldConcat(B, [Or(OrClause(f, |f.fs|, x))], ClausesUpTo(f, |f.fs|, x));
    } else {
      assert Clauses(f, x) == ClausesUpTo(f, |f.fs|, x);
    }
  }

  lemma BelowKept(C: World, B: World, f: Formula, x: nat)
    requires !f.Literal? && Avoids(f, x, x + 1) && AllHold(C, Below(f, |f.fs|, x)) && SameBut(C, B, x, x + 1)
    ensures AllHold(B, Below(f, |f.fs|, x))
  {
    var cs := Below(f, |f.fs|, x);
    BelowVars(f, |f.fs|, x);
    forall i | 0 <= i < |cs| ensures Eval(B, cs[i]) {
      forall v: nat | Occurs(v, cs[i]) ensures v in C <==> v in B {
        assert Occurs(v, f) || x + 1 <= v;
      }
      EvalAgree(C, B, cs[i]);
    }
  }

  lemma TopHolds(B: World, f: Formula, x: nat)
    requires f.Or? && x > 0 && Faithful(B, f, |f.fs|, x) && (x in B ==> Eval(B, f))
    ensures AllHold(B, [Or(OrClause(f, |f.fs|, x))])
  {
    var c := OrClause(f, |f.fs|, x);
    if x in B {
      var i :| 0 <= i < |f.fs| && Eval(B, f.fs[i]);
      assert c[i + 1] == ChildLit(f, i, x);
    } else {
      assert Eval(B, c[0]);
    }
  }

  lemma {:induction false} LinksHold(B: World, f: Formula, k: nat, x: nat)
    requires !f.Literal? && k <= |f.fs| && x > 0 && Faithful(B, f, |f.fs|, x) && (x in B ==> Eval(B, f))
    requires AllHold(B, Below(f, k, x))
    ensures AllHold(B, ClausesUpTo(f, k, x))
    decreases k
  {
    hide OrClause, ChildLit, Clauses, ChildPart, Link, AllHold, Eval, Faithful;
    if k == 0 {
      NothingToHold(B);
    } else {
      AllHoldConcat(B, Below(f, k - 1, x), ChildPart(f, k - 1, x));
      LinksHold(B, f, k - 1, x);
      LinkHolds(B, f, k - 1, x);
      AllHoldConcat(B, ClausesUpTo(f, k - 1, x), Link(f, k - 1, x));
      AllHoldConcat(B, ClausesUpTo(f, k - 1, x) + Link(f, k - 1, x), ChildPart(f, k - 1, x));
    }
  }

  lemma NothingToHold(A: World)
    ensures AllHold(A, [])
  {
  }

  lemma LinkHolds(B: World, f: Formula, i: nat, x: nat)
    requires !f.Literal? && i < |f.fs| && x > 0 && Faithful(B, f, |f.fs|, x) && (x in B ==> Eval(B, f))
    ensures AllHold(B, Link(f, i, x))
  {
    if f.And? {
      var c := [NegVar(x), ChildLit(f, i, x)];
      assert Eval(B, c[if x in B then 1 else 0]);
    }
  }

  // ---------- the translation ----------

  /** Every assignment that satisfies the translation satisfies the formula. */
  lemma CnfSound(A: World, f: Formula, numVar: nat)
    requires Eval(A, Cnf(f, numVar))
    ensures Eval(A, f)
  {
    if !f.Literal? {
      var x := numVar + 1;
      var cs := [Literal(x)] + Clauses(f, x);
      assert AllHold(A, cs);
      AllHoldConcat(A, [Literal(x)], Clauses(f, x));
      assert Eval(A, [Literal(x)][0]);
      ClausesSound(A, f, x);
    }
  }

  /** If no fresh variable occurs in the formula, every assignment that satisfies the formula
      extends, on the fresh variables alone, to one that satisfies the translation. */
  lemma CnfComplete(A: World, f: Formula, numVar: nat) returns (B: World)
    requires Eval(A, f) && Avoids(f, numVar + 1, numVar + 1 + Inner(f))
    ensures Eval(B, Cnf(f, numVar)) && SameBut(A, B, numVar + 1, numVar + 1 + Inner(f))
  {
    if f.Literal? {
      B := A;
    } else {
      var x := numVar + 1;
      B := Extend(A, f, x);
      AllHoldConcat(B, [Literal(x)], Clauses(f, x));
    }
  }

  /** A variable of the formula that is among the fresh ones may be captured: here the formula is
      satisfiable and its translation is not. */
  lemma CnfCapture(A: World)
    ensures var f := And([Literal(-1)]);
            Eval(iset{}, f) && !Avoids(f, 1, 1 + Inner(f)) && !Eval(A, Cnf(f, 0))
  {
    var f := And([Literal(-1)]);
    assert Eval(A, f) ==> Eval(A, f.fs[0]);
    assert Occurs(1, f.fs[0]) && Occurs(1, f);
    if Eval(A, Cnf(f, 0)) {
      var cs := [Literal(1)] + Clauses(f, 1);
      assert Eval(A, cs[0]);
      CnfSound(A, f, 0);
    }
  }

  // ---------- the shape of the translation ----------

  ghost predicate IsClause(g: Formula) {
    g.Or? && forall i :: 0 <= i < |g.fs| ==> g.fs[i].Literal?
  }

  ghost predicate AllClauses(cs: seq<Formula>) {
    forall i :: 0 <= i < |cs| ==> IsClause(cs[i])
  }

  lemma AllClausesConcat(cs: seq<Formula>, ds: seq<Formula>)
    requires AllClauses(cs) && AllClauses(ds)
    ensures AllClauses(cs + ds)
  {
  }

  /** Whatever the formula, its translation is in conjunctive normal form. */
  lemma {:induction false} CnfShape(f: Formula, x: nat)
    requires !f.Literal?
    ensures AllClauses(Clauses(f, x))
    decreases f, 1, 0
  {
    PartShape(f, |f.fs|, x);
    var top := if f.Or? then [Or(OrClause(f, |f.fs|, x))] else [];
    assert AllClauses(top);
    AllClausesConcat(top, ClausesUpTo(f, |f.fs|, x));
  }

  lemma {:induction false} PartShape(f: Formula, k: nat, x: nat)
    requires !f.Literal? && k <= |f.fs|
    ensures AllClauses(ClausesUpTo(f, k, x))
    decreases f, 0, k
  {
    if k == 0 {
    } else {
      PartShape(f, k - 1, x);
      if !f.fs[k - 1].Literal? { CnfShape(f.fs[k - 1], ChildVar(f, k - 1, x)); }
      AllClausesConcat(ClausesUpTo(f, k - 1, x), Link(f, k - 1, x));
      AllClausesConcat(ClausesUpTo(f, k - 1, x) + Link(f, k - 1, x), ChildPart(f, k - 1, x));
    }
  }

  // ---------- the fresh variables ----------

  ghost predicate OccursIn(v: nat, cs: seq<Formula>) {
    exists i :: 0 <= i < |cs| && Occurs(v, cs[i])
  }

  lemma OccursInConcat(v: nat, cs: seq<Formula>, ds: seq<Formula>)
    ensures OccursIn(v, cs + ds) <==> OccursIn(v, cs) || OccursIn(v, ds)
  {
    if i :| 0 <= i < |cs| && Occurs(v, cs[i]) { assert (cs + ds)[i] == cs[i]; }
    if i :| 0 <= i < |ds| && Occurs(v, ds[i]) { assert (cs + ds)[|cs| + i] == ds[i]; }
  }

  // A fresh variable is that of a child, or one below it.
  lemma {:induction false} FreshUpTo(f: Formula, k: nat, x: nat, v: nat)
    requires !f.Literal? && k <= |f.fs| && x < v < x + 1 + InnerUpTo(f, k)
    ensures OccursIn(v, ClausesUpTo(f, k, x)) ||
            (f.Or? && exists i :: 0 <= i < k && !f.fs[i].Literal? && v == ChildVar(f, i, x))
    decreases f, 0, k
  {
    hide OccursIn, Occurs, Clauses, Link;
    var y := ChildVar(f, k - 1, x);
    var head := ClausesUpTo(f, k - 1, x);
    OccursInConcat(v, head + Link(f, k - 1, x), ChildPart(f, k - 1, x));
    OccursInConcat(v, head, Link(f, k - 1, x));
    if v < y {
      FreshUpTo(f, k - 1, x, v);
    } else if v == y {
      LinkOccurs(f, k - 1, x);
    } else {
      FreshOccur(f.fs[k - 1], y, v);
    }
  }

  lemma LinkOccurs(f: Formula, k: nat, x: nat)
    requires !f.Literal? && k < |f.fs| && !f.fs[k].Literal?
    ensures f.And? ==> OccursIn(ChildVar(f, k, x), Link(f, k, x))
  {
    if f.And? {
      var c := [NegVar(x), ChildLit(f, k, x)];
      assert Occurs(ChildVar(f, k, x), c[1]);
      assert Occurs(ChildVar(f, k, x), Link(f, k, x)[0]);
    }
  }

  /** Every fresh variable of a node but its own occurs in its clauses. */
  lemma {:induction false} FreshOccur(f: Formula, x: nat, v: nat)
    requires !f.Literal? && x < v < x + Inner(f)
    ensures OccursIn(v, Clauses(f, x))
    decreases f, 1, 0
  {
    var top := if f.Or? then [Or(OrClause(f, |f.fs|, x))] else [];
    OccursInConcat(v, top, ClausesUpTo(f, |f.fs|, x));
    FreshUpTo(f, |f.fs|, x, v);
    if !OccursIn(v, ClausesUpTo(f, |f.fs|, x)) {
      var i :| 0 <= i < |f.fs| && !f.fs[i].Literal? && v == ChildVar(f, i, x);
      var c := OrClause(f, |f.fs|, x);
      assert c[i + 1] == ChildLit(f, i, x);
      assert Occurs(v, c[i + 1]);
      assert Occurs(v, top[0]);
    }
  }

  /** The fresh variables are exactly numVar + 1, ..., numVar + k, one for each of the k inner
      nodes. */
  lemma CnfVariables(f: Formula, numVar: nat, v: nat)
    requires !f.Literal? && VarsBelow(f, numVar + 1)
    ensures v > numVar ==> (Occurs(v, Cnf(f, numVar)) <==> v <= numVar + Inner(f))
    ensures v <= numVar && Occurs(v, Cnf(f, numVar)) ==> Occurs(v, f)
  {
    var x := numVar + 1;
    var cs := [Literal(x)] + Clauses(f, x);
    assert Cnf(f, numVar) == And(cs);
    OccursInConcat(v, [Literal(x)], Clauses(f, x));
    assert Occurs(v, [Literal(x)][0]) <==> v == x;
    assert OccursIn(v, [Literal(x)]) <==> v == x;
    assert Occurs(v, And(cs)) <==> OccursIn(v, cs);
    ClausesVars(f, x);
    if OccursIn(v, Clauses(f, x)) {
      assert Occurs(v, f) || x <= v < x + Inner(f);
    }
    if x < v < x + Inner(f) { FreshOccur(f, x, v); }
  }
}
