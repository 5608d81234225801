/** Activities in units of the current increment.  Scaling activities and increment down together
    leaves these as they are, and one bump adds one; the increment grows by decay. */
module SatActivity {
  import opened Basics
  import opened SatTypes
  import opened SatCore
  import opened SatLearn
  import opened SatUip

  function Ratio(x: real, y: real): real
    requires y != 0.0
  {
    x / y
  }

  lemma RatioScaled(x: real, y: real, c: real)
    requires y > 0.0 && c > 0.0
    ensures y / c > 0.0 && Ratio(x / c, y / c) == Ratio(x, y)
  {
    var u, w := x / c, y / c;
    assert u * c == x && w * c == y;
    assert Ratio(u, w) * y == Ratio(u, w) * w * c == x;
  }

  lemma RatioBumped(x: real, y: real)
    requires y > 0.0
    ensures Ratio(x + y, y) == Ratio(x, y) + 1.0
  {
    QuotientIs(x / y + 1.0, y, x + y);
  }

  lemma QuotientIs(q: real, y: real, x: real)
    requires y > 0.0 && q * y == x
    ensures Ratio(x, y) == q
  {
  }

  function Unit(b: bool): real {
    if b then 1.0 else 0.0
  }

  // The increment before it was divided by the decay factor.
  function Undecayed(inc: real, decay: real): real {
    inc * decay
  }

  lemma DecayedBack(x: real, y: real)
    requires x > 0.0 && y > 0.0
    ensures Ratio(x, y) > 0.0 && Undecayed(Ratio(x, y), y) == x
  {
  }

  // ---------- variables ----------

  /** Exactly the variables in S have been bumped, once each. */
  ghost predicate Bumped(act0: seq<real>, inc0: real, act: seq<real>, inc: real, S: set<Var>) {
    && |act| == |act0| && inc0 > 0.0 && inc > 0.0
    && forall v :: 0 <= v < |act| ==> Ratio(act[v], inc) == Ratio(act0[v], inc0) + Unit(v in S)
  }

  lemma BumpedNone(act: seq<real>, inc: real)
    requires inc > 0.0
    ensures Bumped(act, inc, act, inc, {})
  {
  }

  lemma BumpedOne(act: seq<real>, inc: real, v: Var)
    requires inc > 0.0 && v < |act|
    ensures Bumped(act, inc, act[v := act[v] + inc], inc, {v})
  {
    hide Ratio;
    RatioBumped(act[v], inc);
  }

  lemma BumpedScaled(act0: seq<real>, inc0: real, act: seq<real>, inc: real, S: set<Var>, act': seq<real>, c: real)
    requires Bumped(act0, inc0, act, inc, S) && c > 0.0
    requires |act'| == |act| && forall v :: 0 <= v < |act| ==> act'[v] == act[v] / c
    ensures inc / c > 0.0 && Bumped(act0, inc0, act', inc / c, S)
  {
    hide Ratio;
    RatioScaled(0.0, inc, c);
    forall v | 0 <= v < |act| ensures Ratio(act'[v], inc / c) == Ratio(act[v], inc) {
      RatioScaled(act[v], inc, c);
    }
  }

  lemma BumpedTrans(act0: seq<real>, inc0: real, act1: seq<real>, inc1: real, act2: seq<real>, inc2: real, S: set<Var>,
          R: set<Var>)
    requires Bumped(act0, inc0, act1, inc1, S) && Bumped(act1, inc1, act2, inc2, R) && S !! R
    ensures Bumped(act0, inc0, act2, inc2, S + R)
  {
    hide Ratio;
  }

  // ---------- clauses ----------

  /** Of the clauses listed exactly those in S have been bumped, once each. */
  ghost predicate ClausesBumped(act0: map<CRef, real>, inc0: real, act: map<CRef, real>, inc: real, cs: seq<CRef>,
          S: set<CRef>)
  {
    && inc0 > 0.0 && inc > 0.0
    && forall i :: 0 <= i < |cs| ==>
        cs[i] in act && cs[i] in act0 && Ratio(act[cs[i]], inc) == Ratio(act0[cs[i]], inc0) + Unit(cs[i] in S)
  }

  lemma ClausesBumpedNone(act: map<CRef, real>, inc: real, cs: seq<CRef>)
    requires inc > 0.0 && forall i :: 0 <= i < |cs| ==> cs[i] in act
    ensures ClausesBumped(act, inc, act, inc, cs, {})
  {
  }

  lemma ClausesBumpedOne(act: map<CRef, real>, inc: real, cs: seq<CRef>, cr: CRef)
    requires inc > 0.0 && cr in act && forall i :: 0 <= i < |cs| ==> cs[i] in act
    ensures ClausesBumped(act, inc, act[cr := act[cr] + inc], inc, cs, {cr})
  {
    hide Ratio;
    RatioBumped(act[cr], inc);
  }

  lemma ClausesBumpedScaled(act0: map<CRef, real>, inc0: real, act: map<CRef, real>, inc: real, cs: seq<CRef>,
          S: set<CRef>, act': map<CRef, real>, c: real)
    requires ClausesBumped(act0, inc0, act, inc, cs, S) && c > 0.0
    requires forall i :: 0 <= i < |cs| ==> cs[i] in act' && act'[cs[i]] == act[cs[i]] / c
    ensures inc / c > 0.0 && ClausesBumped(act0, inc0, act', inc / c, cs, S)
  {
    hide Ratio;
    RatioScaled(0.0, inc, c);
    forall i | 0 <= i < |cs| ensures Ratio(act'[cs[i]], inc / c) == Ratio(act[cs[i]], inc) {
      RatioScaled(act[cs[i]], inc, c);
    }
  }

  lemma ClausesBumpedTrans(act0: map<CRef, real>, inc0: real, act1: map<CRef, real>, inc1: real,
          act2: map<CRef, real>, inc2: real, cs: seq<CRef>, S: set<CRef>, R: set<CRef>)
    requires ClausesBumped(act0, inc0, act1, inc1, cs, S) && ClausesBumped(act1, inc1, act2, inc2, cs, R) && S !! R
    ensures ClausesBumped(act0, inc0, act2, inc2, cs, S + R)
  {
    hide Ratio;
  }

  // Clauses that are not listed do not matter.
  lemma ClausesBumpedSame(act0: map<CRef, real>, inc0: real, act: map<CRef, real>, inc: real, cs: seq<CRef>,
          S: set<CRef>, R: set<CRef>)
    requires ClausesBumped(act0, inc0, act, inc, cs, S)
    requires forall i :: 0 <= i < |cs| ==> (cs[i] in S <==> cs[i] in R)
    ensures ClausesBumped(act0, inc0, act, inc, cs, R)
  {
    hide Ratio;
  }

  // A clause that joins the list with one bump.
  lemma NewClauseBumped(act0: map<CRef, real>, inc0: real, act: map<CRef, real>, inc: real, cs: seq<CRef>, cr: CRef)
    requires Different(cs + [cr]) && forall i :: 0 <= i < |cs| ==> cs[i] in act0
    requires ClausesBumped(act0[cr := 0.0], inc0, act, inc, cs + [cr], {cr})
    ensures ClausesBumped(act0, inc0, act, inc, cs, {}) && cr in act && Ratio(act[cr], inc) == 1.0
  {
    hide Ratio;
    var ds := cs + [cr];
    RatioZero(inc0);
    assert ds[|cs|] == cr;
    forall i | 0 <= i < |cs|
      ensures cs[i] in act && cs[i] in act0 && Ratio(act[cs[i]], inc) == Ratio(act0[cs[i]], inc0) + Unit(cs[i] in {})
    {
      assert ds[i] == cs[i] && ds[i] != ds[|cs|];
    }
  }

  lemma RatioOne(x: real, y: real)
    requires y > 0.0 && Ratio(x, y) == 1.0
    ensures x == y
  {
  }

  lemma RatioZero(y: real)
    requires y > 0.0
    ensures Ratio(0.0, y) == 0.0
  {
  }

  // ---------- the clauses resolved ----------

  ghost predicate Falsified(mem: Memory, t: TrailState, cr: CRef) {
    cr in mem && forall q :: q in mem[cr].lits ==> t.Val(q) == False
  }

  /** The falsified clause and the reasons of the variables involved at index i of the trail or
      later. */
  ghost function Resolvents(mem: Memory, t: TrailState, confl: CRef, i: nat): set<CRef> {
    {confl} + set v | 0 <= v < |t.assigns| && Involved(mem, t, ConflictVars(mem, t, confl), i, v) && t.Pos(v) >= i
        :: t.Why(v)
  }

  ghost function ResolventsBefore(mem: Memory, t: TrailState, confl: CRef, index: nat, start: nat): set<CRef> {
    if start == 0 then {} else Resolvents(mem, t, confl, index + 1)
  }

  // A clause is the reason of one variable at most, and the falsified clause is no reason.
  lemma ReasonOnce(mem: Memory, t: TrailState, confl: CRef, x: Var, y: Var)
    requires TrailOK(t) && ReasonsOK(mem, t) && t.Assigned(x) && t.Assigned(y) && t.Why(x) != CREF_UNDEF
    requires t.Why(x) == t.Why(y)
    ensures x == y
  {
    assert ReasonOK(mem, t, x) && ReasonOK(mem, t, y);
  }

  lemma NoReason(mem: Memory, t: TrailState, confl: CRef, x: Var)
    requires TrailOK(t) && ReasonsOK(mem, t) && t.Assigned(x) && t.Why(x) != CREF_UNDEF
    requires Falsified(mem, t, confl)
    ensures t.Why(x) != confl
  {
    assert ReasonOK(mem, t, x);
    assert t.Why(x) in mem && mem[t.Why(x)].lits[0] in mem[t.Why(x)].lits;
  }

  lemma InvolvedAssigned(mem: Memory, t: TrailState, roots: set<Var>, i: nat, v: Var)
    requires RootsOK(t, roots) && Involved(mem, t, roots, i, v)
    ensures t.Assigned(v) && v < |t.assigns|
  {
    var xs :| Path(mem, t, roots, i, xs) && xs[|xs| - 1] == v;
    PathAssigned(mem, t, roots, i, xs, |xs| - 1);
  }

  // At the start only the falsified clause is resolved on.
  lemma StartResolvents(mem: Memory, t: TrailState, confl: CRef)
    requires TrailOK(t)
    ensures Resolvents(mem, t, confl, |t.trail|) == {confl}
  {
    hide Involved, ConflictVars;
    var roots := ConflictVars(mem, t, confl);
    ConflictRoots(mem, t, confl);
    forall v: Var | Involved(mem, t, roots, |t.trail|, v) ensures t.Pos(v) < |t.trail| {
      InvolvedAssigned(mem, t, roots, |t.trail|, v);
      assert t.trail[t.Pos(v)] == t.TrueLit(v);
    }
  }

  // What is involved at index i or later: the literal at i, and what is involved later.
  lemma InvolvedAt(mem: Memory, t: TrailState, roots: set<Var>, i: nat, seen0: seq<bool>, v: Var)
    requires RootsOK(t, roots) && TrailOK(t) && ReasonsOK(mem, t) && i < |t.trail|
    requires t.trail[i].v < |seen0| == |t.assigns| && !seen0[t.trail[i].v]
    requires Front(mem, t, roots, i + 1, seen0[t.trail[i].v := true])
    ensures Involved(mem, t, roots, i, v) && t.Pos(v) >= i <==>
            v == t.trail[i].v || (Involved(mem, t, roots, i + 1, v) && t.Pos(v) >= i + 1)
  {
    hide Involved, Leads;
    var x := t.trail[i].v;
    TrailLit(t, i);
    InvolvedNow(mem, t, roots, i, seen0, v);
    assert seen0[x := true][x];
    assert Reached(mem, t, roots, i + 1, x);
    if Leads(mem, t, x, v) { LeadsDown(mem, t, x, v); }
    if Involved(mem, t, roots, i + 1, v) && t.Pos(v) == i {
      InvolvedAssigned(mem, t, roots, i + 1, v);
      AtIndex(t, i, v);
    }
  }

  /** Each resolution step is on a clause not resolved on before. */
  lemma ResolventsStep(mem: Memory, t: TrailState, confl: CRef, index: nat, seen0: seq<bool>, cr: CRef, start: nat)
    requires TrailOK(t) && ReasonsOK(mem, t) && NextFront(mem, t, confl, index, seen0, cr, start)
    requires Falsified(mem, t, confl)
    ensures cr !in ResolventsBefore(mem, t, confl, index, start)
    ensures Resolvents(mem, t, confl, index) == ResolventsBefore(mem, t, confl, index, start) + {cr}
  {
    hide Involved, ConflictVars, RootsOK, Front, NoPoint;
    var roots := ConflictVars(mem, t, confl);
    ConflictRoots(mem, t, confl);
    if start == 0 {
      StartResolvents(mem, t, confl);
    } else {
      var x := t.trail[index].v;
      TrailLit(t, index);
      forall v: Var
        ensures Involved(mem, t, roots, index, v) && t.Pos(v) >= index <==>
                v == x || (Involved(mem, t, roots, index + 1, v) && t.Pos(v) >= index + 1)
      {
        InvolvedAt(mem, t, roots, index, seen0, v);
      }
      NoReason(mem, t, confl, x);
      forall v: Var | Involved(mem, t, roots, index + 1, v) && t.Why(v) == cr ensures v == x {
        InvolvedAssigned(mem, t, roots, index + 1, v);
        ReasonOnce(mem, t, confl, x, v);
      }
    }
  }

  lemma SkipResolvents(mem: Memory, t: TrailState, confl: CRef, i: nat, bound: nat, seen: seq<bool>)
    requires TrailOK(t) && ReasonsOK(mem, t) && i < bound <= |t.trail|
    requires var roots := ConflictVars(mem, t, confl);
      Front(mem, t, roots, bound, seen) && InvolvedVars(mem, t, roots, i + 1) == InvolvedVars(mem, t, roots, bound)
    requires forall k :: i < k < bound ==> t.trail[k].v < |seen| && !seen[t.trail[k].v]
    ensures Resolvents(mem, t, confl, i + 1) == Resolvents(mem, t, confl, bound)
  {
    hide Involved, ConflictVars, RootsOK;
    var roots := ConflictVars(mem, t, confl);
    ConflictRoots(mem, t, confl);
    forall v: Var | v < |t.assigns|
      ensures Involved(mem, t, roots, i + 1, v) && t.Pos(v) >= i + 1 <==>
              Involved(mem, t, roots, bound, v) && t.Pos(v) >= bound
    {
      assert v in InvolvedVars(mem, t, roots, i + 1) <==> v in InvolvedVars(mem, t, roots, bound);
      if Involved(mem, t, roots, bound, v) && t.Pos(v) < bound {
        assert Reached(mem, t, roots, bound, v);
        InvolvedAssigned(mem, t, roots, bound, v);
        AtIndex(t, t.Pos(v), v);
        assert t.Pos(v) <= i;
      }
    }
  }

  // ---------- one round of the analysis ----------

  lemma BumpedStep(mem: Memory, t: TrailState, confl: CRef, index: nat, seen0: seq<bool>, seen: seq<bool>, cr: CRef,
          start: nat, act0: seq<real>, inc0: real, act1: seq<real>, inc1: real, act: seq<real>, inc: real)
    requires TrailOK(t) && ReasonsOK(mem, t) && cr in mem && NextFront(mem, t, confl, index, seen0, cr, start)
    requires MarkedBy(t, seen0, seen, mem[cr].lits, start)
    requires Bumped(act0, inc0, act1, inc1, InvolvedBefore(mem, t, confl, index, start))
    requires Bumped(act1, inc1, act, inc, Fresh(seen0, seen))
    ensures Bumped(act0, inc0, act, inc, InvolvedVars(mem, t, ConflictVars(mem, t, confl), index))
  {
    hide Bumped, InvolvedBefore, InvolvedVars, Fresh, NextFront, MarkedBy;
    FreshInvolved(mem, t, confl, index, seen0, seen, cr, start);
    BumpedTrans(act0, inc0, act1, inc1, act, inc, InvolvedBefore(mem, t, confl, index, start), Fresh(seen0, seen));
  }

  lemma ClausesBumpedStep(mem: Memory, t: TrailState, confl: CRef, index: nat, seen0: seq<bool>, cr: CRef, start: nat,
          act0: map<CRef, real>, inc0: real, act1: map<CRef, real>, inc1: real, act: map<CRef, real>, inc: real,
          cs: seq<CRef>)
    requires TrailOK(t) && ReasonsOK(mem, t) && NextFront(mem, t, confl, index, seen0, cr, start)
    requires Falsified(mem, t, confl)
    requires ClausesBumped(act0, inc0, act1, inc1, cs, ResolventsBefore(mem, t, confl, index, start))
    requires ClausesBumped(act1, inc1, act, inc, cs, {cr})
    ensures ClausesBumped(act0, inc0, act, inc, cs, Resolvents(mem, t, confl, index))
  {
    hide ClausesBumped, ResolventsBefore, Resolvents, NextFront;
    ResolventsStep(mem, t, confl, index, seen0, cr, start);
    ClausesBumpedTrans(act0, inc0, act1, inc1, act, inc, cs, ResolventsBefore(mem, t, confl, index, start), {cr});
  }

  lemma PoppedResolvents(mem: Memory, t: TrailState, confl: CRef, index: nat, bound: nat, seen0: seq<bool>,
          seen: seq<bool>)
    requires TrailOK(t) && ReasonsOK(mem, t) && Popped(t, seen0, seen, index, bound)
    requires var roots := ConflictVars(mem, t, confl);
      && Front(mem, t, roots, bound, seen0)
      && InvolvedVars(mem, t, roots, index + 1) == InvolvedVars(mem, t, roots, bound)
    ensures Resolvents(mem, t, confl, index + 1) == Resolvents(mem, t, confl, bound)
  {
    hide Front, InvolvedVars, Resolvents;
    SkipResolvents(mem, t, confl, index, bound, seen0);
  }

  lemma NothingBefore(mem: Memory, t: TrailState, confl: CRef, index: nat)
    ensures InvolvedBefore(mem, t, confl, index, 0) == {} && ResolventsBefore(mem, t, confl, index, 0) == {}
    ensures InvolvedBefore(mem, t, confl, index, 1) == InvolvedVars(mem, t, ConflictVars(mem, t, confl), index + 1)
    ensures ResolventsBefore(mem, t, confl, index, 1) == Resolvents(mem, t, confl, index + 1)
  {
  }
}
