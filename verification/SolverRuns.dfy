/** Any sequence of calls to the solver: every answer is right for the clauses added so far. */
module SolverRuns {
  import opened SatTypes
  import opened SatAdd
  import opened SatSearch
  import opened SatSolver

  datatype Op = NewVar(sign: bool, dvar: bool) | AddClause(ps: seq<Lit>) | Simplify | Limit(on: bool)
              | Solve(assumps: seq<Lit>)

  datatype Answer = Done | Made(v: Var) | Contradictory(found: bool) | Solved(status: LBool, model: seq<LBool>,
      stopped: bool)

  // The decision flags of the variables made.
  function Flags(ops: seq<Op>): seq<bool> {
    if ops == [] then []
    else Flags(ops[..|ops| - 1]) + if ops[|ops| - 1].NewVar? then [ops[|ops| - 1].dvar] else []
  }

  // Every clause added, satisfied or shortened as it may have been on arrival.
  function Added(ops: seq<Op>): Formula {
    if ops == [] then {} else Added(ops[..|ops| - 1]) + if ops[|ops| - 1].AddClause? then {ops[|ops| - 1].ps} else {}
  }

  // Whether a budget is set, or an interrupt may come: not before that has been asked for.
  function Limited(ops: seq<Op>): bool {
    if ops == [] then false
    else if ops[|ops| - 1].Limit? then ops[|ops| - 1].on
    else Limited(ops[..|ops| - 1])
  }

  // Literals are over variables made before.
  predicate WellFormed(ops: seq<Op>) {
    forall i :: 0 <= i < |ops| ==>
      && (ops[i].AddClause? ==> InRange(ops[i].ps, |Flags(ops[..i])|))
      && (ops[i].Solve? ==> InRange(ops[i].assumps, |Flags(ops[..i])|))
  }

  // A satisfies the formula and the assumptions.
  ghost predicate Solution(A: Model, F: Formula, assumps: seq<Lit>) {
    Models(A, F) && forall p :: p in assumps ==> Holds(A, p)
  }

  // The literals added as clauses of one literal.
  function Units(ops: seq<Op>): set<Lit> {
    if ops == [] then {}
    else
      var op := ops[|ops| - 1];
      Units(ops[..|ops| - 1]) + if op.AddClause? && |op.ps| == 1 then {op.ps[0]} else {}
  }

  predicate OnlyUnits(ops: seq<Op>) {
    forall i :: 0 <= i < |ops| && ops[i].AddClause? ==> |ops[i].ps| == 1
  }

  // No literal of variable v has been added as a clause.
  predicate IsOpen(ops: seq<Op>, v: Var) {
    Lit(v, false) !in Units(ops) && Lit(v, true) !in Units(ops)
  }

  ghost predicate TwoOpenIn(ops: seq<Op>, ps: seq<Lit>) {
    exists p, q :: p in ps && q in ps && p.v != q.v && IsOpen(ops, p.v) && IsOpen(ops, q.v)
  }

  /** A run of which it can be told what is assigned: consistent clauses of one literal come first,
      and then clauses with two open literals. */
  ghost predicate Plain(ops: seq<Op>) {
    ops == [] ||
    (Plain(ops[..|ops| - 1]) && PlainNext(ops[..|ops| - 1], ops[|ops| - 1]))
  }

  ghost predicate PlainNext(before: seq<Op>, op: Op) {
    match op
    case NewVar(_, _) => true
    case AddClause(ps) =>
      if |ps| == 1 then OnlyUnits(before) && Neg(ps[0]) !in Units(before) else TwoOpenIn(before, ps)
    case Simplify => true
    case Limit(_) => true
    case Solve(_) => false
  }

  // Every decision variable has been fixed by a clause of one literal.
  predicate DecisionsFixed(ops: seq<Op>) {
    forall v :: 0 <= v < |Flags(ops)| && Flags(ops)[v] ==> !IsOpen(ops, v)
  }

  /** What an answer to op, after the calls before, promises about the clauses added. */
  ghost predicate Right(before: seq<Op>, op: Op, a: Answer) {
    match op
    case NewVar(_, _) => a.Made?
    case AddClause(ps) => a.Contradictory? && (a.found ==> Unsatisfiable(Added(before) + {ps}))
    case Simplify => a.Contradictory? && (a.found ==> Unsatisfiable(Added(before)))
    case Limit(_) => a.Done?
    case Solve(assumps) =>
      && a.Solved?
      && (a.status == True ==> GoodModel(a.model, Flags(before), assumps, Added(before)))
      && (a.status == True && OneUndecided(Flags(before)) ==> Solution(ModelOf(a.model), Added(before), assumps))
      && (a.status == False ==> forall A :: !Solution(A, Added(before), assumps))
      && (a.status == Undef ==> a.stopped && Limited(before))
      && (assumps == [] && Plain(before) && DecisionsFixed(before) ==> a.status != False)
  }

  ghost predicate AllRight(ops: seq<Op>, answers: seq<Answer>)
    requires |answers| <= |ops|
  {
    forall i :: 0 <= i < |answers| ==> Right(ops[..i], ops[i], answers[i])
  }

  // After a plain run exactly the variables of its units are assigned.
  ghost predicate Tracked(ok: bool, assigns: seq<LBool>, ops: seq<Op>) {
    Plain(ops) ==>
      && ok
      && (forall v :: 0 <= v < |assigns| ==> (assigns[v] == Undef <==> IsOpen(ops, v)))
      && (forall p :: p in Units(ops) ==> p.v < |assigns|)
  }

  // The solver has the variables and clauses of ops.
  ghost predicate Reflects(s: Solver, ops: seq<Op>)
    reads s, s.ca, s.watches, s.order
  {
    && s.Valid() && |s.assigns| == |s.decision| && s.decision == Flags(ops) && s.added == Added(ops)
    && s.restartInc > 1.0 && s.restartFirst >= 1 && s.limited == Limited(ops)
    && Tracked(s.ok, s.assigns, ops)
  }

  lemma StepNext(before: seq<Op>, op: Op)
    ensures Flags(before + [op]) == Flags(before) + if op.NewVar? then [op.dvar] else []
    ensures Added(before + [op]) == Added(before) + if op.AddClause? then {op.ps} else {}
    ensures Limited(before + [op]) == if op.Limit? then op.on else Limited(before)
    ensures Units(before + [op]) == Units(before) + if op.AddClause? && |op.ps| == 1 then {op.ps[0]} else {}
    ensures Plain(before + [op]) <==> Plain(before) && PlainNext(before, op)
    ensures OnlyUnits(before + [op]) <==> OnlyUnits(before) && (op.AddClause? ==> |op.ps| == 1)
  {
    var ops := before + [op];
    assert ops[..|ops| - 1] == before && ops[|before|] == op;
    if OnlyUnits(ops) {
      forall i | 0 <= i < |before| && before[i].AddClause? ensures |before[i].ps| == 1 {
        assert ops[i] == before[i];
      }
    }
  }

  // ---------- plain runs ----------

  // Units never contradict each other.
  lemma {:induction false} UnitsConsistent(ops: seq<Op>, p: Lit)
    requires Plain(ops) && p in Units(ops)
    ensures Neg(p) !in Units(ops)
  {
    var before, op := ops[..|ops| - 1], ops[|ops| - 1];
    if p in Units(before) {
      UnitsConsistent(before, p);
      assert Neg(Neg(p)) == p;
    } else {
      assert p == op.ps[0];
    }
  }

  lemma {:induction false} UnitClauses(ops: seq<Op>, c: seq<Lit>)
    requires OnlyUnits(ops) && c in Added(ops)
    ensures |c| == 1 && c[0] in Units(ops)
  {
    var before := ops[..|ops| - 1];
    if c in Added(before) {
      UnitClauses(before, c);
    }
  }

  // The assignment of the units alone, and with v.
  ghost function UnitModel(ops: seq<Op>, v: Var): Model {
    iset u: Var | u == v || Lit(u, false) in Units(ops)
  }

  /** Consistent units have models, and say nothing of other variables. */
  lemma UnitsOpen(ops: seq<Op>, v: Var)
    requires Plain(ops) && OnlyUnits(ops) && IsOpen(ops, v)
    ensures !Unsatisfiable(Added(ops)) && !Implied(Added(ops), [Lit(v, false)]) && !Implied(Added(ops), [Lit(v, true)])
  {
    var with := UnitModel(ops, v);
    var without: Model := iset u: Var | u in with && u != v;
    forall c: seq<Lit> | c in Added(ops) ensures Sat(with, c) && Sat(without, c) {
      UnitClauses(ops, c);
      UnitsConsistent(ops, c[0]);
      assert c[0] == Lit(c[0].v, c[0].neg) && c[0] in c;
    }
    assert Models(with, Added(ops)) && !Sat(with, [Lit(v, true)]);
    assert Models(without, Added(ops)) && !Sat(without, [Lit(v, false)]);
  }

  lemma {:induction false} FreshVariable(ops: seq<Op>) returns (v: Var)
    ensures IsOpen(ops, v) && forall p :: p in Units(ops) ==> p.v < v
  {
    if ops == [] {
      v := 0;
    } else {
      v := FreshVariable(ops[..|ops| - 1]);
      var op := ops[|ops| - 1];
      if op.AddClause? && |op.ps| == 1 && op.ps[0].v >= v { v := op.ps[0].v + 1; }
    }
  }

  lemma TrackVariable(ok: bool, assigns: seq<LBool>, before: seq<Op>, op: Op)
    requires Tracked(ok, assigns, before) && op.NewVar?
    ensures Tracked(ok, assigns + [Undef], before + [op])
  {
    StepNext(before, op);
  }

  lemma TrackSame(ok: bool, assigns: seq<LBool>, before: seq<Op>, op: Op)
    requires Tracked(ok, assigns, before) && (op.Simplify? || op.Limit? || op.Solve?)
    ensures Tracked(ok, assigns, before + [op])
  {
    StepNext(before, op);
  }

  lemma TrackSolve(ok: bool, assigns: seq<LBool>, before: seq<Op>, op: Op)
    requires op.Solve?
    ensures Tracked(ok, assigns, before + [op])
  {
    StepNext(before, op);
  }

  // The two open literals of a plain clause are unassigned.
  lemma OpenPair(t: TrailState, before: seq<Op>, ps: seq<Lit>)
    requires Tracked(true, t.assigns, before) && Plain(before) && InRange(ps, |t.assigns|) && TwoOpenIn(before, ps)
    ensures TwoOpen(t, ps)
  {
    var p, q :| p in ps && q in ps && p.v != q.v && IsOpen(before, p.v) && IsOpen(before, q.v);
    assert t.Val(p) == Undef && t.Val(q) == Undef;
  }

  // A unit is assigned, and nothing else.
  lemma TrackUnit(t: TrailState, u: TrailState, ok: bool, before: seq<Op>, ps: seq<Lit>)
    requires Tracked(true, t.assigns, before) && Plain(before) && |ps| == 1 && InRange(ps, |t.assigns|)
    requires PlainNext(before, AddClause(ps)) && u.Extends(t)
    requires if ok then u.Val(ps[0]) == True else Unsatisfiable(Added(before + [AddClause(ps)]))
    requires ok ==> forall v :: u.Assigned(v) ==> Implied(Added(before + [AddClause(ps)]), [u.TrueLit(v)])
    ensures Tracked(ok, u.assigns, before + [AddClause(ps)])
  {
    hide Implied, Unsatisfiable;
    var ops := before + [AddClause(ps)];
    StepNext(before, AddClause(ps));
    var unused := FreshVariable(ops);
    UnitsOpen(ops, unused);
    forall v | 0 <= v < |u.assigns| ensures u.assigns[v] == Undef <==> IsOpen(ops, v) {
      if IsOpen(ops, v) {
        UnitsOpen(ops, v);
        assert u.Assigned(v) ==> Implied(Added(ops), [u.TrueLit(v)]);
      } else if v != ps[0].v {
        assert !IsOpen(before, v) && t.Assigned(v) && u.Same(t, v);
      }
    }
  }

  // ---------- the calls ----------

  method MakeVariable(s: Solver, sign: bool, dvar: bool, ghost before: seq<Op>) returns (a: Answer)
    requires Reflects(s, before)
    modifies s, s.watches, s.order
    ensures Reflects(s, before + [NewVar(sign, dvar)]) && a == Made(|old(s.assigns)|)
  {
    hide Solver.Valid, Added, Flags, Limited, Units, Plain, Tracked;
    StepNext(before, NewVar(sign, dvar));
    TrackVariable(s.ok, s.assigns, before, NewVar(sign, dvar));
    var v := s.NewVar(sign, dvar);
    GrownLength(s);
    a := Made(v);
  }

  lemma GrownLength(s: Solver)
    requires s.Valid()
    ensures |s.assigns| == |s.decision|
  {
  }

  method Add(s: Solver, ps: seq<Lit>, ghost before: seq<Op>) returns (a: Answer)
    requires Reflects(s, before) && InRange(ps, |s.assigns|)
    modifies s, s.ca, s.watches
    ensures Reflects(s, before + [AddClause(ps)]) && Right(before, AddClause(ps), a)
  {
    hide Solver.Valid, Added, Flags, Limited, Units, Plain, PlainNext, Tracked, Unsatisfiable, TwoOpen, Implied,
         GoodModel, OneUndecided, Solution, DecisionsFixed;
    ghost var t := s.T();
    StepNext(before, AddClause(ps));
    PlainClause(s.ok, t, before, ps);
    var ok := s.AddClause(ps);
    if !ok { s.ValidFacts(); }
    if ok { AssignedFollow(s); }
    TrackClause(old(s.ok), t, s.ok, s.T(), before, ps);
    a := Contradictory(!ok);
  }

  lemma AssignedFollow(s: Solver)
    requires s.Valid() && s.ok
    ensures forall v :: s.T().Assigned(v) ==> Implied(s.added, [s.T().TrueLit(v)])
  {
    hide Solver.Valid, Implied;
    forall v | s.T().Assigned(v) ensures Implied(s.added, [s.T().TrueLit(v)]) {
      s.AssignedImplied(v);
    }
  }

  // What is known of a plain clause before it is added.
  lemma PlainClause(ok: bool, t: TrailState, before: seq<Op>, ps: seq<Lit>)
    requires Tracked(ok, t.assigns, before) && InRange(ps, |t.assigns|)
    ensures Plain(before) && PlainNext(before, AddClause(ps)) ==> ok && (|ps| == 1 || TwoOpen(t, ps))
  {
    hide Units, TwoOpen;
    if Plain(before) && TwoOpenIn(before, ps) { OpenPair(t, before, ps); }
  }

  lemma TrackClause(ok: bool, t: TrailState, ok': bool, u: TrailState, before: seq<Op>, ps: seq<Lit>)
    requires Tracked(ok, t.assigns, before) && InRange(ps, |t.assigns|) && u.Extends(t)
    requires Plain(before) && PlainNext(before, AddClause(ps)) ==> ok && (|ps| == 1 || TwoOpen(t, ps))
    requires ok && TwoOpen(t, ps) ==> ok' && u == t
    requires ok' && |ps| == 1 ==> u.Val(ps[0]) == True
    requires !ok' ==> Unsatisfiable(Added(before + [AddClause(ps)]))
    requires ok' ==> forall v :: u.Assigned(v) ==> Implied(Added(before + [AddClause(ps)]), [u.TrueLit(v)])
    ensures Tracked(ok', u.assigns, before + [AddClause(ps)])
  {
    hide TwoOpen, Unsatisfiable, Implied;
    StepNext(before, AddClause(ps));
    if Plain(before) && PlainNext(before, AddClause(ps)) && |ps| == 1 {
      TrackUnit(t, u, ok', before, ps);
    }
  }

  method SimplifyOnce(s: Solver, ghost before: seq<Op>) returns (a: Answer)
    requires Reflects(s, before)
    modifies s, s.ca, s.watches, s.order
    ensures Reflects(s, before + [Simplify]) && Right(before, Simplify, a)
  {
    hide Solver.Valid, Added, Flags, Limited, Units, Plain, Tracked, Unsatisfiable;
    StepNext(before, Simplify);
    TrackSame(s.ok, s.assigns, before, Simplify);
    var ok := s.Simplify();
    if !ok { s.ValidFacts(); }
    a := Contradictory(!ok);
  }

  // setConfBudget and its like, budgetOff, interrupt.
  method SetLimit(s: Solver, on: bool, ghost before: seq<Op>) returns (a: Answer)
    requires Reflects(s, before)
    modifies s
    ensures Reflects(s, before + [Limit(on)]) && Right(before, Limit(on), a)
  {
    hide Solver.Valid, Added, Flags, Limited, Units, Plain, Tracked;
    StepNext(before, Limit(on));
    TrackSame(s.ok, s.assigns, before, Limit(on));
    s.limited := on;
    a := Done;
  }

  // Where all decision variables are fixed there is nothing to decide.
  lemma PlainQuiet(ok: bool, assigns: seq<LBool>, decision: seq<bool>, before: seq<Op>)
    requires Tracked(ok, assigns, before) && decision == Flags(before) && |assigns| == |decision|
    ensures Plain(before) && DecisionsFixed(before) ==> ok && Quiet([], decision, assigns)
  {
  }

  method SolveOnce(s: Solver, assumps: seq<Lit>, ghost before: seq<Op>) returns (a: Answer)
    requires Reflects(s, before) && InRange(assumps, |s.assigns|)
    modifies s, s.ca, s.watches, s.order
    ensures Reflects(s, before + [Solve(assumps)]) && Right(before, Solve(assumps), a)
  {
    hide Solver.Valid, Added, Flags, Limited, Plain, DecisionsFixed, Tracked, OneUndecided, Quiet, GoodModel, Models,
         ModelOf;
    StepNext(before, Solve(assumps));
    PlainQuiet(s.ok, s.assigns, s.decision, before);
    var status, stopped := s.SolveLimited(assumps);
    TrackSolve(s.ok, s.assigns, before, Solve(assumps));
    if status == True { GoodModelSatisfies(s.model, s.decision, assumps, s.added); }
    a := Solved(status, s.model, stopped);
  }

  // One call.
  method Step(s: Solver, op: Op, ghost before: seq<Op>) returns (a: Answer)
    requires Reflects(s, before)
    requires op.AddClause? ==> InRange(op.ps, |s.assigns|)
    requires op.Solve? ==> InRange(op.assumps, |s.assigns|)
    modifies s, s.ca, s.watches, s.order
    ensures Reflects(s, before + [op]) && Right(before, op, a)
  {
    hide Reflects, Unsatisfiable, Solution, Added, Flags, OneUndecided;
    match op
    case NewVar(sign, dvar) =>
      a := MakeVariable(s, sign, dvar, before);
    case AddClause(ps) =>
      a := Add(s, ps, before);
    case Simplify =>
      a := SimplifyOnce(s, before);
    case Limit(on) =>
      a := SetLimit(s, on, before);
    case Solve(assumps) =>
      a := SolveOnce(s, assumps, before);
  }

  /** Any run: all answers are right. */
  method Run(ops: seq<Op>) returns (answers: seq<Answer>)
    requires WellFormed(ops)
    ensures |answers| == |ops| && AllRight(ops, answers)
  {
    hide Right, Reflects, Added, Flags, InRange;
    var s := Start();
    answers := [];
    assert ops[..0] == [];
    for i := 0 to |ops|
      invariant |answers| == i && AllRight(ops, answers) && Reflects(s, ops[..i])
      invariant fresh(s) && fresh(s.ca) && fresh(s.watches) && fresh(s.order)
    {
      assert ops[..i + 1] == ops[..i] + [ops[i]];
      ReflectsVariables(s, ops[..i]);
      var a := Step(s, ops[i], ops[..i]);
      answers := answers + [a];
    }
  }

  method Start() returns (s: Solver)
    ensures fresh(s) && fresh(s.ca) && fresh(s.watches) && fresh(s.order) && Reflects(s, [])
  {
    hide Solver.Valid;
    s := new Solver();
  }

  lemma ReflectsVariables(s: Solver, ops: seq<Op>)
    requires Reflects(s, ops)
    ensures s.decision == Flags(ops) && |s.assigns| == |Flags(ops)|
  {
  }

  // ---------- more than one variable that is never decided ----------

  // A well-formed run stays so with one more well-formed call.
  lemma WellFormedNext(before: seq<Op>, op: Op)
    requires WellFormed(before)
    requires op.AddClause? ==> InRange(op.ps, |Flags(before)|)
    requires op.Solve? ==> InRange(op.assumps, |Flags(before)|)
    ensures WellFormed(before + [op])
  {
    var ops := before + [op];
    forall i | 0 <= i < |ops| ensures ops[..i] == before[..if i < |before| then i else |before|] {
    }
  }

  // A run that makes the variables.
  lemma MakeAll(dec: seq<bool>) returns (ops: seq<Op>)
    ensures WellFormed(ops) && Plain(ops) && OnlyUnits(ops) && !Limited(ops) && Flags(ops) == dec && Units(ops) == {}
  {
    hide WellFormed, Flags, Limited, Plain, OnlyUnits, Units;
    ops := [];
    EmptyRun();
    for i := 0 to |dec|
      invariant WellFormed(ops) && Plain(ops) && OnlyUnits(ops) && !Limited(ops) && Flags(ops) == dec[..i]
          && Units(ops) == {}
    {
      WellFormedNext(ops, NewVar(false, dec[i]));
      StepNext(ops, NewVar(false, dec[i]));
      assert dec[..i + 1] == dec[..i] + [dec[i]];
      ops := ops + [NewVar(false, dec[i])];
    }
    assert dec[..|dec|] == dec;
  }

  lemma EmptyRun()
    ensures WellFormed([]) && Plain([]) && OnlyUnits([]) && !Limited([]) && Flags([]) == [] && Units([]) == {}
  {
  }

  // And one that fixes the decision variables.
  lemma FixAll(dec: seq<bool>) returns (ops: seq<Op>)
    ensures WellFormed(ops) && Plain(ops) && !Limited(ops) && Flags(ops) == dec
    ensures forall v: Var :: IsOpen(ops, v) <==> (v < |dec| ==> !dec[v])
  {
    hide WellFormed, Flags, Limited, Plain, OnlyUnits, Units;
    ops := MakeAll(dec);
    for i := 0 to |dec|
      invariant WellFormed(ops) && Plain(ops) && OnlyUnits(ops) && !Limited(ops) && Flags(ops) == dec
      invariant forall p :: p in Units(ops) <==> p.v < i && dec[p.v] && !p.neg
    {
      if dec[i] {
        var c := [Lit(i, false)];
        WellFormedNext(ops, AddClause(c));
        StepNext(ops, AddClause(c));
        assert c[0] == Lit(i, false) && Neg(c[0]) !in Units(ops);
        ops := ops + [AddClause(c)];
      }
    }
  }

  // A clause of two open literals may follow a plain run.
  lemma PairNext(ops: seq<Op>, p: Lit, q: Lit)
    requires WellFormed(ops) && Plain(ops) && p.v < |Flags(ops)| && q.v < |Flags(ops)| && p.v != q.v
    requires IsOpen(ops, p.v) && IsOpen(ops, q.v)
    ensures WellFormed(ops + [AddClause([p, q])]) && Plain(ops + [AddClause([p, q])])
    ensures Flags(ops + [AddClause([p, q])]) == Flags(ops) && Units(ops + [AddClause([p, q])]) == Units(ops)
    ensures Added(ops + [AddClause([p, q])]) == Added(ops) + {[p, q]}
    ensures Limited(ops + [AddClause([p, q])]) == Limited(ops)
  {
    hide WellFormed, Flags, Limited, Plain, Units, Added;
    var c := [p, q];
    assert c[0] in c && c[1] in c;
    WellFormedNext(ops, AddClause(c));
    StepNext(ops, AddClause(c));
  }

  /** For any decision flags with two variables that are not decision variables there is a plain
      run without a budget that fixes the decision variables and adds contradictory clauses.
      Solving after it, as Right says of every answer, answers True: a True answer means a model
      for all runs with the flags dec if and only if OneUndecided(dec). */
  lemma UndecidedRun(dec: seq<bool>) returns (ops: seq<Op>)
    requires !OneUndecided(dec)
    ensures WellFormed(ops + [Solve([])]) && Flags(ops) == dec && Plain(ops) && DecisionsFixed(ops)
    ensures forall A :: !Solution(A, Added(ops), [])
    ensures forall a: Answer :: Right(ops, Solve([]), a) ==> a.status == True
  {
    hide WellFormed, Flags, Limited, Plain, Units, Added;
    var u: nat, v: nat :| u < v < |dec| && !dec[u] && !dec[v];
    ops := FixAll(dec);
    var p, q, p', q' := Lit(u, false), Lit(v, false), Lit(u, true), Lit(v, true);
    PairNext(ops, p, q);
    ops := ops + [AddClause([p, q])];
    PairNext(ops, p, q');
    ops := ops + [AddClause([p, q'])];
    PairNext(ops, p', q);
    ops := ops + [AddClause([p', q])];
    PairNext(ops, p', q');
    ops := ops + [AddClause([p', q'])];
    AllPairsRefuted(Added(ops), p, q, p', q');
    WellFormedNext(ops, Solve([]));
  }
}
