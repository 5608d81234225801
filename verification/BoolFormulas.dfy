/** Boolean formulas of any arity over integer literals, and their meaning. */
module BoolFormulas {

  // A literal is a variable, or its negation as a negative number.
  datatype Formula = Literal(l: int) | And(fs: seq<Formula>) | Or(fs: seq<Formula>)

  // The variables an assignment makes true.
  type World = iset<nat>

  function Var(l: int): nat {
    if l > 0 then l else -l
  }

  ghost predicate LitHolds(A: World, l: int) {
    if l > 0 then l in A else -l !in A
  }

  ghost predicate Eval(A: World, f: Formula) {
    match f
    case Literal(l) => LitHolds(A, l)
    case And(fs) => forall i :: 0 <= i < |fs| ==> Eval(A, fs[i])
    case Or(fs) => exists i :: 0 <= i < |fs| && Eval(A, fs[i])
  }

  // v is the variable of a literal of f.
  ghost predicate Occurs(v: nat, f: Formula) {
    match f
    case Literal(l) => v == Var(l)
    case And(fs) => exists i :: 0 <= i < |fs| && Occurs(v, fs[i])
    case Or(fs) => exists i :: 0 <= i < |fs| && Occurs(v, fs[i])
  }

  ghost predicate VarsBelow(f: Formula, n: nat) {
    forall v: nat :: Occurs(v, f) ==> v < n
  }

  // A and B agree on the variables of f.
  ghost predicate Agree(A: World, B: World, f: Formula) {
    forall v: nat :: Occurs(v, f) ==> (v in A <==> v in B)
  }

  /** The value of a formula depends on its own variables only. */
  lemma {:induction false} EvalAgree(A: World, B: World, f: Formula)
    requires Agree(A, B, f)
    ensures Eval(A, f) <==> Eval(B, f)
    decreases f
  {
    if f.Literal? {
      assert Occurs(Var(f.l), f);
    } else {
      forall i | 0 <= i < |f.fs| ensures Eval(A, f.fs[i]) <==> Eval(B, f.fs[i]) {
        forall v: nat | Occurs(v, f.fs[i]) ensures v in A <==> v in B {
          assert Occurs(v, f);
        }
        EvalAgree(A, B, f.fs[i]);
      }
    }
  }

  /** The largest variable of f, and 0 if it has none. */
  method NumOfVar(f: Formula) returns (n: nat)
    ensures forall v: nat :: Occurs(v, f) ==> v <= n
    ensures n > 0 ==> Occurs(n, f)
    decreases f
  {
    if f.Literal? {
      return Var(f.l);
    }
    n := 0;
    for i := 0 to |f.fs|
      invariant forall k, v: nat :: 0 <= k < i && Occurs(v, f.fs[k]) ==> v <= n
      invariant n > 0 ==> exists k :: 0 <= k < i && Occurs(n, f.fs[k])
    {
      var m := NumOfVar(f.fs[i]);
      n := if n > m then n else m;
    }
  }
}
