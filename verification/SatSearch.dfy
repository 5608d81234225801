/** What the search keeps from step to step besides the state invariants: the decision levels of
    the assumptions, and a measure that every decision and every conflict lowers. */
module SatSearch {
  import opened SatTypes
  import opened SatCore
  import opened SatLearn
  import opened SatSteps
  import opened SatFinal
  import opened SatMeasure
  import opened SatDatabase
  import opened SatReloc

  ghost predicate SearchOK(t: TrailState, assumptions: seq<Lit>) {
    AssumptionsOK(t, assumptions) && LevelsFilled(t, |assumptions|)
  }

  lemma StartSearch(t: TrailState, assumptions: seq<Lit>)
    requires TrailOK(t) && |t.lim| == 0
    ensures SearchOK(t, assumptions)
  {
    forall v | t.Assigned(v) ensures t.Lev(v) == 0 {
      assert LevelOK(t, v);
    }
  }

  /** Propagation keeps the levels and does not raise the measure. */
  lemma DerivedSearch(t: TrailState, u: TrailState, assumptions: seq<Lit>)
    requires TrailOK(t) && TrailOK(u) && Derived(u, t) && SearchOK(t, assumptions)
    ensures SearchOK(u, assumptions) && Measure(u, |assumptions|) <= Measure(t, |assumptions|)
  {
    GrowMeasure(t, u, |assumptions|);
    forall i | 0 <= i < |assumptions| && i < |u.lim|
      ensures u.Val(assumptions[i]) == True && u.Lev(assumptions[i].v) <= i + 1
    {
      ExtendVal(t, u, assumptions[i]);
    }
    forall v | u.Assigned(v) && 0 < u.Lev(v) <= |assumptions| && u.Why(v) == CREF_UNDEF
      ensures u.TrueLit(v) == assumptions[u.Lev(v) - 1]
    {
      assert t.Assigned(v) && u.Same(t, v);
    }
  }

  lemma SameSearch(t: TrailState, u: TrailState, assumptions: seq<Lit>)
    requires SameButReasons(t, u) && SearchOK(t, assumptions)
    ensures SearchOK(u, assumptions) && Measure(u, |assumptions|) == Measure(t, |assumptions|)
  {
    forall i | 0 <= i < |assumptions| && i < |u.lim|
      ensures u.Val(assumptions[i]) == True && u.Lev(assumptions[i].v) <= i + 1
    {
      assert t.Val(assumptions[i]) == True;
    }
    forall v | u.Assigned(v) && 0 < u.Lev(v) <= |assumptions| && u.Why(v) == CREF_UNDEF
      ensures u.TrueLit(v) == assumptions[u.Lev(v) - 1]
    {
      assert t.Assigned(v) && t.Lev(v) == u.Lev(v);
    }
  }

  lemma CancelAssumptions(t: TrailState, level: nat, assumptions: seq<Lit>)
    requires TrailOK(t) && AssumptionsOK(t, assumptions) && level < |t.lim|
    ensures t.lim[level] <= |t.trail| && AssumptionsOK(Cancelled(t, level), assumptions)
  {
    var u := Cancelled(t, level);
    forall i | 0 <= i < |assumptions| && i < |u.lim|
      ensures u.Val(assumptions[i]) == True && u.Lev(assumptions[i].v) <= i + 1
    {
      CancelVal(t, level, assumptions[i]);
    }
    forall v | u.Assigned(v) && 0 < u.Lev(v) <= |assumptions| && u.Why(v) == CREF_UNDEF
      ensures u.TrueLit(v) == assumptions[u.Lev(v) - 1]
    {
      CancelSame(t, level, v);
    }
  }

  lemma EnqueueAssumptions(t: TrailState, p: Lit, from: CRef, assumptions: seq<Lit>)
    requires TrailOK(t) && AssumptionsOK(t, assumptions) && p.v < |t.assigns| && t.Val(p) == Undef
    requires from == CREF_UNDEF && 0 < |t.lim| <= |assumptions| ==> p == assumptions[|t.lim| - 1]
    ensures |t.vardata| == |t.pos| == |t.assigns| && AssumptionsOK(Enqueued(t, p, from), assumptions)
  {
    var u := Enqueued(t, p, from);
    EnqueueTrail(t, p, from);
    forall i | 0 <= i < |assumptions| && i < |u.lim|
      ensures u.Val(assumptions[i]) == True && u.Lev(assumptions[i].v) <= i + 1
    {
      ExtendVal(t, u, assumptions[i]);
    }
    forall v | u.Assigned(v) && 0 < u.Lev(v) <= |assumptions| && u.Why(v) == CREF_UNDEF
      ensures u.TrueLit(v) == assumptions[u.Lev(v) - 1]
    {
      if v != p.v { assert t.Assigned(v) && u.Same(t, v); }
    }
  }

  /** A backjump with its asserted literal lowers the measure. */
  lemma BackjumpSearch(t: TrailState, level: nat, p: Lit, cr: CRef, assumptions: seq<Lit>)
    requires TrailOK(t) && SearchOK(t, assumptions) && level < |t.lim| && t.lim[level] <= |t.trail|
    requires p.v < |t.assigns| && Cancelled(t, level).Val(p) == Undef && (cr == CREF_UNDEF ==> level == 0)
    ensures |t.vardata| == |t.pos| == |t.assigns|
    ensures var u := Enqueued(Cancelled(t, level), p, cr);
            SearchOK(u, assumptions) && Measure(u, |assumptions|) < Measure(t, |assumptions|)
  {
    hide AssumptionsOK, LevelsFilled, Measure;
    BackjumpMeasure(t, level, p, cr, |assumptions|);
    CancelTrail(t, level);
    CancelAssumptions(t, level, assumptions);
    EnqueueAssumptions(Cancelled(t, level), p, cr, assumptions);
  }

  /** An assumption that holds already gets a level of its own. */
  lemma DummySearch(t: TrailState, assumptions: seq<Lit>)
    requires TrailOK(t) && SearchOK(t, assumptions) && |t.lim| < |assumptions| && t.Val(assumptions[|t.lim|]) == True
    ensures SearchOK(Opened(t), assumptions) && Measure(Opened(t), |assumptions|) < Measure(t, |assumptions|)
  {
    OpenMeasure(t, |assumptions|);
    DummyFilled(t, |assumptions|);
    OpenAssumptions(t, assumptions);
  }

  lemma LevelAtMost(t: TrailState, v: Var)
    requires TrailOK(t) && t.Assigned(v)
    ensures t.Lev(v) <= |t.lim|
  {
    assert LevelOK(t, v);
  }

  lemma OpenAssumptions(t: TrailState, assumptions: seq<Lit>)
    requires TrailOK(t) && AssumptionsOK(t, assumptions)
    requires |t.lim| < |assumptions| ==> t.Val(assumptions[|t.lim|]) == True
    ensures AssumptionsOK(Opened(t), assumptions)
  {
    hide TrailOK;
    var u := Opened(t);
    forall i | 0 <= i < |assumptions| && i < |u.lim|
      ensures u.Val(assumptions[i]) == True && u.Lev(assumptions[i].v) <= i + 1
    {
      assert t.Val(assumptions[i]) == True;
      LevelAtMost(t, assumptions[i].v);
    }
    forall v | u.Assigned(v) && 0 < u.Lev(v) <= |assumptions| && u.Why(v) == CREF_UNDEF
      ensures u.TrueLit(v) == assumptions[u.Lev(v) - 1]
    {
      assert t.Assigned(v);
    }
  }

  /** A decision, of the next assumption if there is one left, lowers the measure. */
  lemma DecideSearch(t: TrailState, p: Lit, assumptions: seq<Lit>)
    requires TrailOK(t) && SearchOK(t, assumptions) && p.v < |t.assigns| && t.Val(p) == Undef
    requires |t.lim| < |assumptions| ==> p == assumptions[|t.lim|]
    ensures |t.vardata| == |t.pos| == |t.assigns|
    ensures var u := Enqueued(Opened(t), p, CREF_UNDEF);
            SearchOK(u, assumptions) && Measure(u, |assumptions|) < Measure(t, |assumptions|)
  {
    hide TrailOK, LevelsFilled, Measure;
    DecideMeasure(t, p, |assumptions|);
    var u := Enqueued(Opened(t), p, CREF_UNDEF);
    forall i | 0 <= i < |assumptions| && i < |u.lim|
      ensures u.Val(assumptions[i]) == True && u.Lev(assumptions[i].v) <= i + 1
    {
      if i < |t.lim| {
        assert t.Val(assumptions[i]) == True;
        assert assumptions[i].v != p.v;
      }
    }
    forall v | u.Assigned(v) && 0 < u.Lev(v) <= |assumptions| && u.Why(v) == CREF_UNDEF
      ensures u.TrueLit(v) == assumptions[u.Lev(v) - 1]
    {
      if v != p.v { LevelAtMost(t, v); }
    }
  }

  // ---------- the invariants of a decision ----------

  lemma OpenState(F: Formula, mem: Memory, occs: map<Lit, seq<Watcher>>, dirty: set<Lit>, t: TrailState,
                  clauses: seq<CRef>, learnts: seq<CRef>, sz: nat, wasted: nat)
    requires StateOK(F, mem, occs, dirty, t, clauses, learnts, sz, wasted, |t.trail|)
    ensures StateOK(F, mem, occs, dirty, Opened(t), clauses, learnts, sz, wasted, |t.trail|)
  {
    hide WatchOK, PropOK, ReasonsOK, DbOK, TrailOK, RefsOK, MarksOK, Balanced, Sound, Complete;
    OpenTrail(mem, t);
    SameValuesProp(mem, t, Opened(t), |t.trail|);
    OpenSound(F, mem, clauses, t);
  }

  lemma OpenSound(F: Formula, mem: Memory, clauses: seq<CRef>, t: TrailState)
    requires Sound(F, mem, t) && Complete(F, mem, clauses, t)
    ensures Sound(F, mem, Opened(t)) && Complete(F, mem, clauses, Opened(t))
  {
    var u := Opened(t);
    forall v | u.Assigned(v) && u.Lev(v) == 0 && u.Why(v) == CREF_UNDEF ensures Implied(F, [u.TrueLit(v)]) {
      assert t.Assigned(v) && t.TrueLit(v) == u.TrueLit(v);
    }
    CompleteFacts(F, mem, clauses, t, u);
  }

  lemma DecideState(F: Formula, mem: Memory, occs: map<Lit, seq<Watcher>>, dirty: set<Lit>, t: TrailState,
                    clauses: seq<CRef>, learnts: seq<CRef>, sz: nat, wasted: nat, p: Lit)
    requires StateOK(F, mem, occs, dirty, t, clauses, learnts, sz, wasted, |t.trail|)
    requires |t.lim| > 0 && t.lim[|t.lim| - 1] == |t.trail| && p.v < |t.assigns| && t.Val(p) == Undef
    ensures |t.vardata| == |t.pos| == |t.assigns|
    ensures StateOK(F, mem, occs, dirty, Enqueued(t, p, CREF_UNDEF), clauses, learnts, sz, wasted, |t.trail|)
  {
    hide WatchOK, PropOK, ReasonsOK, DbOK, RefsOK, MarksOK, Balanced, Sound, Complete, LevelOK;
    var u := Enqueued(t, p, CREF_UNDEF);
    EnqueueTrail(t, p, CREF_UNDEF);
    EnqueueReasons(mem, t, p, CREF_UNDEF);
    ExtendProp(mem, t, u, |t.trail|);
    EnqueueComplete(F, mem, clauses, t, u);
    DecideSound(F, mem, t, p);
  }

  lemma DecideSound(F: Formula, mem: Memory, t: TrailState, p: Lit)
    requires TrailOK(t) && Sound(F, mem, t) && |t.lim| > 0 && p.v < |t.assigns| && t.Val(p) == Undef
    ensures |t.vardata| == |t.pos| == |t.assigns| && Sound(F, mem, Enqueued(t, p, CREF_UNDEF))
  {
    var u := Enqueued(t, p, CREF_UNDEF);
    EnqueueTrail(t, p, CREF_UNDEF);
    forall v | u.Assigned(v) && u.Lev(v) == 0 && u.Why(v) == CREF_UNDEF ensures Implied(F, [u.TrueLit(v)]) {
      assert t.Assigned(v) && u.Same(t, v);
    }
  }

  // ---------- answers ----------

  // The total assignment read off a list of lifted booleans.
  ghost function ModelOf(m: seq<LBool>): Model {
    iset v: Var | v < |m| && m[v] == True
  }

  lemma AssignedHolds(t: TrailState, p: Lit)
    requires t.Val(p) == True
    ensures Holds(ModelOf(t.assigns), p)
  {
  }

  // No more than one variable is unassigned.
  predicate OneOpen(assigns: seq<LBool>) {
    forall u, v :: 0 <= u < v < |assigns| ==> assigns[u] != Undef || assigns[v] != Undef
  }

  // No more than one variable is not a decision variable.
  predicate OneUndecided(decision: seq<bool>) {
    forall u, v :: 0 <= u < v < |decision| ==> decision[u] || decision[v]
  }

  // Every decision variable is assigned.
  predicate NothingOpen(decision: seq<bool>, assigns: seq<LBool>) {
    |decision| == |assigns| && forall v :: 0 <= v < |assigns| && decision[v] ==> assigns[v] != Undef
  }

  // There is nothing to assume and nothing to decide.
  predicate Quiet(assumptions: seq<Lit>, decision: seq<bool>, assigns: seq<LBool>) {
    assumptions == [] && NothingOpen(decision, assigns)
  }

  // Literal p has value b in m.
  predicate HasValue(m: seq<LBool>, p: Lit, b: LBool) {
    p.v < |m| && Flip(m[p.v], p.neg) == b
  }

  /** What a partial assignment can show of a clause: a true literal, or two undefined literals of
      different variables; nothing is asked of tautologies. */
  ghost predicate Witnessed(m: seq<LBool>, c: seq<Lit>) {
    || Tautology(c)
    || (exists p :: p in c && HasValue(m, p, True))
    || (exists p, q :: p in c && q in c && p.v != q.v && HasValue(m, p, Undef) && HasValue(m, q, Undef))
  }

  ghost predicate AllWitnessed(m: seq<LBool>, F: Formula) {
    forall c :: c in F ==> Witnessed(m, c)
  }

  /** What the assignment of a True answer must be: it decides all decision variables, makes all
      assumptions true, and witnesses all clauses. */
  ghost predicate GoodModel(m: seq<LBool>, decision: seq<bool>, assumps: seq<Lit>, F: Formula) {
    && |m| == |decision| && (forall v :: 0 <= v < |m| && decision[v] ==> m[v] != Undef)
    && (forall p :: p in assumps ==> HasValue(m, p, True))
    && AllWitnessed(m, F)
  }

  // A watched literal of an assigned variable is true, or the clause is true because of it.
  lemma WatchTrue(t: TrailState, c: seq<Lit>, q: Lit) returns (p: Lit)
    requires TrailOK(t) && q in c && WatchProp(t, c, q, |t.trail|) && t.Val(q) != Undef
    ensures p in c && HasValue(t.assigns, p, True)
  {
    p := q;
    if t.Val(q) != True {
      assert t.Assigned(q.v);
      assert TrueBelow(t, c, t.Lev(q.v));
      p :| p in c && t.Val(p) == True;
    }
  }

  /** With everything propagated, a live clause is witnessed by its two watched literals. */
  lemma LiveWitnessed(t: TrailState, c: seq<Lit>)
    requires TrailOK(t) && ClauseOK(c, |t.assigns|) && ClauseProp(t, c, |t.trail|)
    ensures Witnessed(t.assigns, c)
  {
    var p, q := c[0], c[1];
    if p.v == q.v {
      assert q == Neg(p);
    } else if t.Val(p) != Undef {
      var r := WatchTrue(t, c, p);
    } else if t.Val(q) != Undef {
      var r := WatchTrue(t, c, q);
    } else {
      assert HasValue(t.assigns, p, Undef) && HasValue(t.assigns, q, Undef);
    }
  }

  lemma WitnessedWider(m: seq<LBool>, d: seq<Lit>, c: seq<Lit>)
    requires Within(d, c) && Witnessed(m, d)
    ensures Witnessed(m, c)
  {
    if Tautology(d) {
      var p :| p in d && Neg(p) in d;
      assert p in c && Neg(p) in c;
    }
  }

  /** A completely propagated assignment witnesses every clause ever added. */
  lemma CompleteWitness(F: Formula, mem: Memory, occs: map<Lit, seq<Watcher>>, dirty: set<Lit>, t: TrailState,
                        clauses: seq<CRef>, learnts: seq<CRef>, sz: nat, wasted: nat)
    requires StateOK(F, mem, occs, dirty, t, clauses, learnts, sz, wasted, |t.trail|)
    ensures AllWitnessed(t.assigns, F)
  {
    hide WatchOK, ReasonsOK, TrailOK, MarksOK, Balanced, Sound, Witnessed;
    forall c | c in F ensures Witnessed(t.assigns, c) {
      assert Represented(mem, clauses, t, c);
      RepresentedWitnessed(mem, clauses, t, learnts, c);
    }
  }

  lemma RepresentedWitnessed(mem: Memory, clauses: seq<CRef>, t: TrailState, learnts: seq<CRef>, c: seq<Lit>)
    requires TrailOK(t) && DbOK(mem, |t.assigns|) && PropOK(mem, t, |t.trail|) && RefsOK(mem, clauses, false)
    requires Represented(mem, clauses, t, c)
    ensures Witnessed(t.assigns, c)
  {
    if FixedTrue(t, c) {
      var p :| p in c && t.Val(p) == True && t.Lev(p.v) == 0;
      assert HasValue(t.assigns, p, True);
    } else if Subsumed(mem, clauses, c) {
      var i :| 0 <= i < |clauses| && clauses[i] in mem && Within(mem[clauses[i]].lits, c);
      ListedClause(mem, clauses, false, |t.assigns|, i);
      assert ClauseProp(t, mem[clauses[i]].lits, |t.trail|);
      LiveWitnessed(t, mem[clauses[i]].lits);
      WitnessedWider(t.assigns, mem[clauses[i]].lits, c);
    }
  }

  /** A partial assignment to all variables but one, which is then taken as false, is a model of
      the clauses it witnesses. */
  lemma WitnessedModel(m: seq<LBool>, F: Formula)
    requires AllWitnessed(m, F) && OneOpen(m)
    ensures Models(ModelOf(m), F)
  {
    var A := ModelOf(m);
    forall c | c in F ensures Sat(A, c) {
      assert Witnessed(m, c);
      if Tautology(c) {
        var p :| p in c && Neg(p) in c;
        assert Holds(A, p) || Holds(A, Neg(p));
      } else {
        var p :| p in c && HasValue(m, p, True);
        assert Holds(A, p);
      }
    }
  }

  /** So it is a model of the clauses if no more than one variable is not a decision variable. */
  lemma GoodModelSatisfies(m: seq<LBool>, decision: seq<bool>, assumps: seq<Lit>, F: Formula)
    requires GoodModel(m, decision, assumps, F)
    ensures OneUndecided(decision) ==> Models(ModelOf(m), F)
    ensures forall p :: p in assumps ==> Holds(ModelOf(m), p)
  {
    hide AllWitnessed;
    if OneUndecided(decision) { WitnessedModel(m, F); }
    forall p | p in assumps ensures Holds(ModelOf(m), p) {
      assert HasValue(m, p, True);
    }
  }

  /** The explanation of a failure excludes every model in which all assumptions hold. */
  lemma FailedAssumptions(F: Formula, c: seq<Lit>, assumptions: seq<Lit>, A: Model)
    requires Implied(F, c) && FromAssumptions(c, assumptions) && Models(A, F)
    ensures exists p :: p in assumptions && !Holds(A, p)
  {
    assert Sat(A, c);
    var q :| q in c && Holds(A, q);
    assert Neg(q) in assumptions && !Holds(A, Neg(q));
  }
}
