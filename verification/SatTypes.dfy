/** Literals, lifted booleans, clauses and the assignment stack of the MiniSat solver,
    with the propositional semantics the solver's answers are judged by. */
module SatTypes {

  type Var = nat

  // A clause reference is an offset into the clause region.
  type CRef = int
  const CREF_UNDEF: CRef := -1

  datatype Lit = Lit(v: Var, neg: bool)

  function Neg(p: Lit): Lit {
    Lit(p.v, !p.neg)
  }

  // The packed integer of a literal: it orders p and Neg(p) next to each other.
  function ToInt(p: Lit): nat {
    2 * p.v + if p.neg then 1 else 0
  }

  datatype LBool = True | False | Undef

  function Flip(b: LBool, s: bool): LBool {
    if b == Undef || !s then b else if b == True then False else True
  }

  datatype VarData = VarData(reason: CRef, level: nat)

  datatype Watcher = Watcher(cref: CRef, blocker: Lit)

  datatype Clause = Clause(lits: seq<Lit>, learnt: bool, mark: nat)

  type Memory = map<CRef, Clause>

  // A clause that has not been freed (freeing sets mark 1).
  predicate Live(mem: Memory, cr: CRef) {
    cr in mem && mem[cr].mark == 0
  }

  // ---------- the assignment stack ----------

  /** The fields that describe the current partial assignment.  pos[v] is the index on the
      trail of an assigned variable v; it is bookkeeping for the proofs only. */
  datatype TrailState = TrailState(assigns: seq<LBool>, vardata: seq<VarData>,
                                   trail: seq<Lit>, lim: seq<nat>, pos: seq<nat>)
  {
    predicate Assigned(v: Var) {
      v < |assigns| && assigns[v] != Undef
    }

    function Val(p: Lit): LBool {
      if p.v < |assigns| then Flip(assigns[p.v], p.neg) else Undef
    }

    function Lev(v: Var): nat {
      if v < |vardata| then vardata[v].level else 0
    }

    function Why(v: Var): CRef {
      if v < |vardata| then vardata[v].reason else CREF_UNDEF
    }

    function Pos(v: Var): nat {
      if v < |pos| then pos[v] else 0
    }

    // The literal of v that the assignment makes true.
    function TrueLit(v: Var): Lit {
      Lit(v, v < |assigns| && assigns[v] == False)
    }

    function DL(): nat {
      |lim|
    }

    // The first trail index of the current decision level.
    function LevelStart(): nat {
      if |lim| == 0 then 0 else lim[|lim| - 1]
    }

    ghost predicate Extends(t: TrailState) {
      && |assigns| == |t.assigns|
      && lim == t.lim
      && t.trail <= trail
      && forall v :: t.Assigned(v) ==> Same(t, v)
    }

    predicate Same(t: TrailState, v: Var) {
      Assigned(v) && TrueLit(v) == t.TrueLit(v) && Lev(v) == t.Lev(v) && Why(v) == t.Why(v) && Pos(v) == t.Pos(v)
    }
  }

  // ---------- propositional semantics ----------

  // A total assignment, given by the variables it makes true.
  type Model = iset<Var>

  type Formula = set<seq<Lit>>

  predicate Holds(A: Model, p: Lit) {
    (p.v in A) != p.neg
  }

  ghost predicate Sat(A: Model, c: seq<Lit>) {
    exists p :: p in c && Holds(A, p)
  }

  ghost predicate Models(A: Model, F: Formula) {
    forall c :: c in F ==> Sat(A, c)
  }

  // Every model of F satisfies the clause c.
  ghost predicate Implied(F: Formula, c: seq<Lit>) {
    forall A :: Models(A, F) ==> Sat(A, c)
  }

  ghost predicate Unsatisfiable(F: Formula) {
    forall A :: !Models(A, F)
  }

  // ---------- clause shapes ----------

  predicate Distinct(c: seq<Lit>) {
    forall i, j :: 0 <= i < j < |c| ==> c[i] != c[j]
  }

  predicate InRange(c: seq<Lit>, n: nat) {
    forall i :: 0 <= i < |c| ==> c[i].v < n
  }

  predicate ClauseOK(c: seq<Lit>, n: nat) {
    |c| >= 2 && InRange(c, n) && Distinct(c)
  }

  // The same literals, possibly in another order.
  ghost predicate SameLits(c: seq<Lit>, d: seq<Lit>) {
    |c| == |d| && forall p :: p in c <==> p in d
  }
}
