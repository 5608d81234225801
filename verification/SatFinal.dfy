/** Explaining a failed assumption, and the link between decision levels and assumptions. */
module SatFinal {
  import opened SatTypes
  import opened SatCore
  import opened SatLearn
  import opened SatUip

  /** The first decision levels belong to the assumptions: each is true from its level on, and
      what was decided there is the assumption itself. */
  ghost predicate AssumptionsOK(t: TrailState, assumptions: seq<Lit>) {
    && (forall i :: 0 <= i < |assumptions| && i < |t.lim| ==>
          t.Val(assumptions[i]) == True && t.Lev(assumptions[i].v) <= i + 1)
    && (forall v :: t.Assigned(v) && 0 < t.Lev(v) <= |assumptions| && t.Why(v) == CREF_UNDEF ==>
          t.TrueLit(v) == assumptions[t.Lev(v) - 1])
  }

  // Whatever makes the marked literals true and falsifies out makes p true.
  ghost predicate Explains(F: Formula, t: TrailState, seen: seq<bool>, out: seq<Lit>, p: Lit) {
    forall A :: Models(A, F) && Agrees(A, t, seen) && !Sat(A, out) ==> Holds(A, p)
  }

  // The marked variables lie below index i of the trail; only that of p may be at level 0.
  ghost predicate FinalMarks(t: TrailState, seen: seq<bool>, i: nat, p: Lit) {
    && |seen| == |t.assigns|
    && forall v :: 0 <= v < |seen| && seen[v] ==> t.Assigned(v) && t.Pos(v) < i && (t.Lev(v) > 0 || v == p.v)
  }

  lemma StartFinal(F: Formula, t: TrailState, seen: seq<bool>, p: Lit)
    requires TrailOK(t) && t.Val(p) == True && |seen| == |t.assigns| && forall v :: 0 <= v < |seen| ==> !seen[v]
    ensures p.v < |seen| && FinalMarks(t, seen[p.v := true], |t.trail|, p)
    ensures Explains(F, t, seen[p.v := true], [p], p)
  {
    assert t.Assigned(p.v);
    var seen' := seen[p.v := true];
    forall A | Models(A, F) && Agrees(A, t, seen') && !Sat(A, [p]) ensures Holds(A, p) {
      assert seen'[p.v];
    }
  }

  /** A decision joins the explanation. */
  lemma FinalDecision(F: Formula, t: TrailState, seen: seq<bool>, out: seq<Lit>, p: Lit, d: Lit)
    requires Explains(F, t, seen, out, p) && d.v < |seen| && t.TrueLit(d.v) == d
    ensures Explains(F, t, seen[d.v := false], out + [Neg(d)], p)
  {
    var seen', out' := seen[d.v := false], out + [Neg(d)];
    forall A | Models(A, F) && Agrees(A, t, seen') && !Sat(A, out') ensures Holds(A, p) {
      assert !Sat(A, out) by {
        forall q | q in out ensures !Holds(A, q) { assert q in out'; }
      }
      assert Neg(d) in out';
      assert Agrees(A, t, seen);
    }
  }

  /** A forced literal is replaced by the rest of its reason. */
  lemma FinalReason(F: Formula, mem: Memory, t: TrailState, seen: seq<bool>, seen': seq<bool>, out: seq<Lit>, p: Lit,
          d: Lit)
    requires TrailOK(t) && ReasonsOK(mem, t) && Sound(F, mem, t) && Explains(F, t, seen, out, p)
    requires t.Val(d) == True && t.TrueLit(d.v) == d && t.Why(d.v) != CREF_UNDEF && t.Assigned(d.v)
    requires d.v < |seen| == |seen'| && forall v :: 0 <= v < |seen| && seen[v] && v != d.v ==> seen'[v]
    requires t.Why(d.v) in mem && AllMarked(t, seen', mem[t.Why(d.v)].lits, 1)
    ensures Explains(F, t, seen', out, p)
  {
    assert ReasonOK(mem, t, d.v);
    var c := mem[t.Why(d.v)].lits;
    forall A | Models(A, F) && Agrees(A, t, seen') && !Sat(A, out) ensures Holds(A, p) {
      assert Sat(A, c);
      var q :| q in c && Holds(A, q);
      var k :| 0 <= k < |c| && c[k] == q;
      if k > 0 { FalsifiedBy(F, mem, t, seen', c, 1, A, k); }
      assert Agrees(A, t, seen);
    }
  }

  // One literal of a reason, at a level above 0, is marked.
  lemma FinalMark(t: TrailState, seen: seq<bool>, i: nat, p: Lit, q: Lit)
    requires FinalMarks(t, seen, i, p) && t.Assigned(q.v) && t.Pos(q.v) < i && q.v < |seen| && t.Lev(q.v) > 0
    ensures FinalMarks(t, seen[q.v := true], i, p)
  {
  }

  lemma FinalLength(t: TrailState, seen: seq<bool>, i: nat, p: Lit)
    requires TrailOK(t) && i < |t.trail| && FinalMarks(t, seen, i + 1, p)
    ensures t.trail[i].v < |seen|
  {
    TrailLit(t, i);
  }

  // The literal at index i of the trail is dealt with.
  lemma FinalDone(t: TrailState, seen: seq<bool>, i: nat, p: Lit)
    requires TrailOK(t) && i < |t.trail| && FinalMarks(t, seen, i + 1, p)
    ensures t.trail[i].v < |seen| && FinalMarks(t, seen[t.trail[i].v := false], i, p)
  {
    TrailLit(t, i);
    forall v | 0 <= v < |seen| && seen[v] && t.Pos(v) == i ensures v == t.trail[i].v {
      assert t.trail[t.Pos(v)] == t.TrueLit(v);
    }
  }

  lemma FinalSkip(t: TrailState, seen: seq<bool>, i: nat, p: Lit)
    requires TrailOK(t) && i < |t.trail| && FinalMarks(t, seen, i + 1, p) && t.trail[i].v < |seen|
        && !seen[t.trail[i].v]
    ensures FinalMarks(t, seen, i, p)
  {
    FinalDone(t, seen, i, p);
    assert seen[t.trail[i].v := false] == seen;
  }

  /** Below the first decision nothing but p itself is marked: the explanation is implied. */
  lemma EndFinal(F: Formula, mem: Memory, t: TrailState, seen: seq<bool>, out: seq<Lit>, p: Lit)
    requires TrailOK(t) && ReasonsOK(mem, t) && Sound(F, mem, t) && |t.lim| > 0
    requires Explains(F, t, seen, out, p) && FinalMarks(t, seen, t.lim[0], p)
    requires t.Val(p) == True && |out| >= 1 && out[0] == p
    ensures Implied(F, out)
    ensures p.v < |seen| && forall v :: 0 <= v < |seen| && v != p.v ==> !seen[v]
  {
    forall v | 0 <= v < |seen| && seen[v] ensures v == p.v && t.Lev(v) == 0 {
      assert LevelOK(t, v);
    }
    if seen[p.v] {
      Level0Implied(F, mem, t, p.v);
      ImpliedUnit(F, p);
    }
    forall A | Models(A, F) ensures Sat(A, out) {
      assert Agrees(A, t, seen);
      assert p in out;
    }
  }

  // ---------- which decisions explain ----------

  /** A decision from which p is forced: reasons lead back from p to v, through variables assigned
      after v. */
  ghost predicate Explanatory(mem: Memory, t: TrailState, p: Lit, v: Var) {
    t.Assigned(v) && t.Lev(v) > 0 && t.Why(v) == CREF_UNDEF && Reached(mem, t, {p.v}, t.Pos(v) + 1, v)
  }

  // p and the negations of such decisions at index i of the trail or later.
  ghost predicate ExplainedFrom(mem: Memory, t: TrailState, p: Lit, i: nat, out: seq<Lit>) {
    forall q :: q in out <==>
      q == p || (Explanatory(mem, t, p, q.v) && t.Pos(q.v) >= i && q == Neg(t.TrueLit(q.v)))
  }

  /** The literals of the explanation: p and the negations of the decisions that force it. */
  ghost predicate ExplainedBy(mem: Memory, t: TrailState, p: Lit, out: seq<Lit>) {
    forall q :: q in out <==> q == p || (Explanatory(mem, t, p, q.v) && q == Neg(t.TrueLit(q.v)))
  }

  lemma StartExplained(mem: Memory, t: TrailState, seen: seq<bool>, p: Lit)
    requires TrailOK(t) && t.Val(p) == True && |seen| == |t.assigns| && forall v :: 0 <= v < |seen| ==> !seen[v]
    ensures RootsOK(t, {p.v}) && ExplainedFrom(mem, t, p, |t.trail|, [p])
    ensures p.v < |seen| && Front(mem, t, {p.v}, |t.trail|, seen[p.v := true])
  {
    hide Reached;
    assert t.Assigned(p.v);
    var seen' := seen[p.v := true];
    forall v: Var ensures v < |seen'| && seen'[v] <==> Reached(mem, t, {p.v}, |t.trail|, v) {
      RootsFront(mem, t, {p.v}, v);
    }
    forall q | q in [p] ensures q == p {
    }
    forall v | t.Assigned(v) ensures t.Pos(v) < |t.trail| {
      assert t.trail[t.Pos(v)] == t.TrueLit(v);
    }
  }

  // The literal at index i joins if it is such a decision.
  lemma ExplainedNext(mem: Memory, t: TrailState, p: Lit, i: nat, out: seq<Lit>)
    requires TrailOK(t) && i < |t.trail| && ExplainedFrom(mem, t, p, i + 1, out)
    ensures Explanatory(mem, t, p, t.trail[i].v) ==> ExplainedFrom(mem, t, p, i, out + [Neg(t.trail[i])])
    ensures !Explanatory(mem, t, p, t.trail[i].v) ==> ExplainedFrom(mem, t, p, i, out)
  {
    hide Reached;
    TrailLit(t, i);
    forall v | t.Assigned(v) && t.Pos(v) == i ensures v == t.trail[i].v {
      AtIndex(t, i, v);
    }
  }

  // A marked literal at index i is where a path from p leads.
  lemma ExplainsMarked(mem: Memory, t: TrailState, seen: seq<bool>, p: Lit, i: nat)
    requires TrailOK(t) && i < |t.trail| && t.trail[i].v < |seen| && Front(mem, t, {p.v}, i + 1, seen)
    requires |t.lim| > 0 && t.lim[0] <= i
    ensures Explanatory(mem, t, p, t.trail[i].v) <==> seen[t.trail[i].v] && t.Why(t.trail[i].v) == CREF_UNDEF
  {
    hide Reached;
    TrailLit(t, i);
    assert LevelOK(t, t.trail[i].v);
  }

  // Without a reason or a mark, nothing is reached through the literal at index i.
  lemma UnmarkFront(mem: Memory, t: TrailState, seen: seq<bool>, p: Lit, i: nat)
    requires RootsOK(t, {p.v}) && TrailOK(t) && ReasonsOK(mem, t) && i < |t.trail| && t.trail[i].v < |seen|
    requires Front(mem, t, {p.v}, i + 1, seen)
    requires !seen[t.trail[i].v] || t.Why(t.trail[i].v) == CREF_UNDEF
    ensures Front(mem, t, {p.v}, i, seen[t.trail[i].v := false])
  {
    hide Reached, Occurs;
    var x := t.trail[i].v;
    var seen' := seen[x := false];
    forall v: Var ensures v < |seen'| && seen'[v] <==> Reached(mem, t, {p.v}, i, v) {
      FrontStep(mem, t, {p.v}, i, v);
    }
  }

  // The marks of the reason of the literal at index i replace its own.
  lemma ReasonFront(mem: Memory, t: TrailState, seen0: seq<bool>, marked: seq<bool>, p: Lit, i: nat)
    requires RootsOK(t, {p.v}) && TrailOK(t) && ReasonsOK(mem, t) && i < |t.trail| && |marked| == |t.assigns|
    requires t.trail[i].v < |seen0| && seen0[t.trail[i].v] && Front(mem, t, {p.v}, i + 1, seen0)
    requires t.Why(t.trail[i].v) != CREF_UNDEF && t.Why(t.trail[i].v) in mem
    requires MarkedBy(t, seen0, marked, mem[t.Why(t.trail[i].v)].lits, 1)
    ensures t.trail[i].v < |marked| && Front(mem, t, {p.v}, i, marked[t.trail[i].v := false])
  {
    hide Front, Occurs;
    var x := t.trail[i].v;
    var c := mem[t.Why(x)].lits;
    var seen1, marked1 := seen0[x := false], marked[x := false];
    TrailLit(t, i);
    assert seen1[x := true] == seen0;
    assert !Occurs(t, c, 1, x) by {
      if Occurs(t, c, 1, x) {
        OccursLeads(mem, t, x);
        LeadsDown(mem, t, x, x);
      }
    }
    forall v | 0 <= v < |marked1| ensures marked1[v] <==> seen1[v] || Occurs(t, c, 1, v) {
    }
    ResolveFront(mem, t, {p.v}, i, seen1, marked1);
  }

  lemma OccursLeads(mem: Memory, t: TrailState, x: Var)
    requires t.Why(x) != CREF_UNDEF && t.Why(x) in mem && Occurs(t, mem[t.Why(x)].lits, 1, x)
    ensures Leads(mem, t, x, x)
  {
  }

  // Nothing below the first decision is a decision.
  lemma EndExplained(mem: Memory, t: TrailState, p: Lit, out: seq<Lit>)
    requires TrailOK(t) && ExplainedFrom(mem, t, p, if |t.lim| > 0 then t.lim[0] else |t.trail|, out)
    ensures ExplainedBy(mem, t, p, out)
  {
    hide Reached;
    var i := if |t.lim| > 0 then t.lim[0] else |t.trail|;
    forall v | t.Assigned(v) && t.Lev(v) > 0 ensures t.Pos(v) >= i {
      assert LevelOK(t, v);
    }
  }

  // All literals of c are negations of assumptions.
  ghost predicate FromAssumptions(c: seq<Lit>, assumptions: seq<Lit>) {
    forall q :: q in c ==> Neg(q) in assumptions
  }

  lemma FromAssumptionsPush(c: seq<Lit>, assumptions: seq<Lit>, d: Lit)
    requires FromAssumptions(c, assumptions) && d in assumptions
    ensures FromAssumptions(c + [Neg(d)], assumptions)
  {
    forall q | q in c + [Neg(d)] ensures Neg(q) in assumptions {
      assert q in c || q == Neg(d);
    }
  }

  lemma OnlyAssumption(assumptions: seq<Lit>, p: Lit)
    requires Neg(p) in assumptions
    ensures FromAssumptions([p], assumptions)
  {
  }

  lemma LimInTrail(t: TrailState)
    requires TrailOK(t) && |t.lim| > 0
    ensures t.lim[0] <= |t.trail|
  {
  }

  // Without decisions everything is at level 0.
  lemma FinalAtRoot(F: Formula, mem: Memory, t: TrailState, p: Lit)
    requires TrailOK(t) && ReasonsOK(mem, t) && Sound(F, mem, t) && |t.lim| == 0 && t.Val(p) == True
    ensures Implied(F, [p])
  {
    assert t.Assigned(p.v) && LevelOK(t, p.v);
    Level0Implied(F, mem, t, p.v);
  }

  lemma NotInOwnReason(t: TrailState, seen: seq<bool>, c: seq<Lit>, d: Lit)
    requires AllMarked(t, seen, c, 1) && t.Val(d) == True && d.v < |seen|
    requires forall k :: 1 <= k < |c| ==> t.Pos(c[k].v) < t.Pos(d.v)
    ensures AllMarked(t, seen[d.v := false], c, 1)
  {
  }

  // A marked decision at index i of the trail is an assumption and joins the explanation.
  lemma DecisionExplained(F: Formula, t: TrailState, seen: seq<bool>, out: seq<Lit>, p: Lit, assumptions: seq<Lit>,
          i: nat)
    requires TrailOK(t) && AssumptionsOK(t, assumptions) && 0 < |t.lim| < |assumptions|
    requires t.lim[0] <= i < |t.trail| && FinalMarks(t, seen, i + 1, p) && Explains(F, t, seen, out, p)
    requires t.Why(t.trail[i].v) == CREF_UNDEF && t.trail[i].v < |seen|
    requires FromAssumptions(out, assumptions)
    ensures var d := t.trail[i];
      && FinalMarks(t, seen[d.v := false], i, p)
      && Explains(F, t, seen[d.v := false], out + [Neg(d)], p)
      && FromAssumptions(out + [Neg(d)], assumptions)
  {
    var d := t.trail[i];
    TrailLit(t, i);
    assert LevelOK(t, d.v);
    DecisionAssumed(t, assumptions, d.v);
    FinalDone(t, seen, i, p);
    FinalDecision(F, t, seen, out, p, d);
    FromAssumptionsPush(out, assumptions, d);
  }

  // The decisions below the level of the failed assumption are assumptions.
  lemma DecisionAssumed(t: TrailState, assumptions: seq<Lit>, v: Var)
    requires TrailOK(t) && AssumptionsOK(t, assumptions) && |t.lim| < |assumptions|
    requires t.Assigned(v) && t.Lev(v) > 0 && t.Why(v) == CREF_UNDEF
    ensures t.TrueLit(v) in assumptions
  {
    assert LevelOK(t, v);
  }
}
