/** Conflict analysis on values: resolution along the trail, minimisation of the learnt clause,
    and the explanation of a failed assumption. */
module SatLearn {
  import opened SetSizes
  import opened SatTypes
  import opened SatCore

  // ---------- what the clause set implies ----------

  /** The formula F implies every live clause and every fact of level 0 that has no reason. */
  ghost predicate Sound(F: Formula, mem: Memory, t: TrailState) {
    && (forall cr :: Live(mem, cr) ==> Implied(F, mem[cr].lits))
    && (forall v :: t.Assigned(v) && t.Lev(v) == 0 && t.Why(v) == CREF_UNDEF ==> Implied(F, [t.TrueLit(v)]))
  }

  lemma ImpliedUnit(F: Formula, p: Lit)
    ensures Implied(F, [p]) <==> forall A :: Models(A, F) ==> Holds(A, p)
  {
    forall A | Models(A, F) ensures Sat(A, [p]) <==> Holds(A, p) {
      assert p in [p];
    }
  }

  /** Every literal of level 0 is implied. */
  lemma {:induction false} Level0Implied(F: Formula, mem: Memory, t: TrailState, v: Var)
    requires TrailOK(t) && ReasonsOK(mem, t) && Sound(F, mem, t)
    requires t.Assigned(v) && t.Lev(v) == 0
    ensures Implied(F, [t.TrueLit(v)])
    decreases t.Pos(v)
  {
    assert ReasonOK(mem, t, v);
    if t.Why(v) == CREF_UNDEF {
    } else {
      var c := mem[t.Why(v)].lits;
      ImpliedUnit(F, c[0]);
      forall k | 1 <= k < |c| ensures forall A :: Models(A, F) ==> !Holds(A, c[k]) {
        LevelMono(t, c[k].v, v);
        Level0Implied(F, mem, t, c[k].v);
        ImpliedUnit(F, t.TrueLit(c[k].v));
      }
      forall A | Models(A, F) ensures Holds(A, c[0]) {
        assert Sat(A, c);
      }
    }
  }

  /** A clause that is false at level 0 refutes the formula. */
  lemma RootRefuted(F: Formula, mem: Memory, t: TrailState, c: seq<Lit>)
    requires TrailOK(t) && ReasonsOK(mem, t) && Sound(F, mem, t) && |t.lim| == 0 && Implied(F, c)
    requires forall q :: q in c ==> t.Val(q) == False
    ensures Unsatisfiable(F)
  {
    forall A ensures !Models(A, F) {
      if Models(A, F) {
        assert Sat(A, c);
        var q :| q in c && Holds(A, q);
        assert t.Assigned(q.v) && LevelOK(t, q.v);
        Level0Implied(F, mem, t, q.v);
        ImpliedUnit(F, t.TrueLit(q.v));
      }
    }
  }

  // ---------- resolution along the trail ----------

  // A makes the literals of all marked variables true, as the trail does.
  ghost predicate Agrees(A: Model, t: TrailState, seen: seq<bool>) {
    forall v :: 0 <= v < |seen| && seen[v] ==> Holds(A, t.TrueLit(v))
  }

  /** No model of F agrees with the trail on the marked variables: the clause of their falsified
      literals is implied. */
  ghost predicate Conflicting(F: Formula, t: TrailState, seen: seq<bool>) {
    forall A :: Models(A, F) ==> !Agrees(A, t, seen)
  }

  lemma AgreesLess(A: Model, t: TrailState, seen0: seq<bool>, seen: seq<bool>, p: Lit)
    requires MarkedMore(seen0, seen) && p.v < |seen0| && t.TrueLit(p.v) == p
    requires Agrees(A, t, seen) && Holds(A, p)
    ensures Agrees(A, t, seen0[p.v := true])
  {
  }

  predicate MarkedMore(seen0: seq<bool>, seen: seq<bool>) {
    |seen| == |seen0| && forall v :: 0 <= v < |seen| && seen0[v] ==> seen[v]
  }

  // From index start on, every literal of c is false and at level 0 or marked.
  ghost predicate AllMarked(t: TrailState, seen: seq<bool>, c: seq<Lit>, start: nat) {
    forall k :: start <= k < |c| ==> t.Val(c[k]) == False && c[k].v < |seen| && (t.Lev(c[k].v) == 0 || seen[c[k].v])
  }

  lemma AllMarkedNext(t: TrailState, seen: seq<bool>, c: seq<Lit>, start: nat, j: nat)
    requires start <= j < |c| && AllMarked(t, seen, c[..j], start) && t.Val(c[j]) == False && c[j].v < |seen|
    ensures AllMarked(t, seen[c[j].v := true], c[..j + 1], start)
    ensures t.Lev(c[j].v) == 0 || seen[c[j].v] ==> AllMarked(t, seen, c[..j + 1], start)
  {
    var c1 := c[..j + 1];
    forall k | start <= k < |c1| ensures c1[k] == c[k] && (k < j ==> c[..j][k] == c[k]) {
    }
  }

  lemma FalsifiedBy(F: Formula, mem: Memory, t: TrailState, seen: seq<bool>, c: seq<Lit>, start: nat, A: Model, k: nat)
    requires TrailOK(t) && ReasonsOK(mem, t) && Sound(F, mem, t)
    requires AllMarked(t, seen, c, start) && Models(A, F) && Agrees(A, t, seen) && start <= k < |c|
    ensures !Holds(A, c[k])
  {
    if t.Lev(c[k].v) == 0 {
      Level0Implied(F, mem, t, c[k].v);
      ImpliedUnit(F, t.TrueLit(c[k].v));
    }
  }

  /** The falsified clause starts the analysis. */
  lemma ConflictStep(F: Formula, mem: Memory, t: TrailState, seen: seq<bool>, cr: CRef)
    requires TrailOK(t) && ReasonsOK(mem, t) && Sound(F, mem, t) && Live(mem, cr)
    requires AllMarked(t, seen, mem[cr].lits, 0)
    ensures Conflicting(F, t, seen)
  {
    var c := mem[cr].lits;
    forall A | Models(A, F) ensures !Agrees(A, t, seen) {
      assert Sat(A, c);
      var p :| p in c && Holds(A, p);
      var k :| 0 <= k < |c| && c[k] == p;
      if Agrees(A, t, seen) { FalsifiedBy(F, mem, t, seen, c, 0, A, k); }
    }
  }

  /** Resolving on p with its reason. */
  lemma ResolveStep(F: Formula, mem: Memory, t: TrailState, seen0: seq<bool>, seen: seq<bool>, p: Lit, cr: CRef)
    requires TrailOK(t) && ReasonsOK(mem, t) && Sound(F, mem, t) && Live(mem, cr)
    requires p.v < |seen0| && t.TrueLit(p.v) == p && Conflicting(F, t, seen0[p.v := true])
    requires |mem[cr].lits| >= 1 && mem[cr].lits[0] == p && AllMarked(t, seen, mem[cr].lits, 1)
    requires MarkedMore(seen0, seen)
    ensures Conflicting(F, t, seen)
  {
    var c := mem[cr].lits;
    forall A | Models(A, F) ensures !Agrees(A, t, seen) {
      assert Sat(A, c);
      var q :| q in c && Holds(A, q);
      var k :| 0 <= k < |c| && c[k] == q;
      if Agrees(A, t, seen) {
        if k > 0 { FalsifiedBy(F, mem, t, seen, c, 1, A, k); } else { AgreesLess(A, t, seen0, seen, p); }
      }
    }
  }

  // ---------- the state of the first-UIP loop ----------

  ghost predicate SeenOK(t: TrailState, seen: seq<bool>) {
    |seen| == |t.assigns| && forall v :: 0 <= v < |seen| && seen[v] ==> t.Assigned(v) && t.Lev(v) > 0
  }

  ghost predicate HasVar(c: seq<Lit>, v: Var) {
    exists i :: 1 <= i < |c| && c[i].v == v
  }

  ghost function CurrentSeen(t: TrailState, seen: seq<bool>): set<Var> {
    set v: Var | 0 <= v < |seen| && seen[v] && t.Lev(v) == t.DL()
  }

  // The literals from index 1 on are false, at levels strictly between 0 and the current one.
  ghost predicate LowerLits(t: TrailState, out: seq<Lit>) {
    && |out| >= 1
    && (forall i :: 1 <= i < |out| ==> t.Val(out[i]) == False && 0 < t.Lev(out[i].v) < t.DL())
    && (forall i, j :: 1 <= i < j < |out| ==> out[i].v != out[j].v)
  }

  /** out collects exactly the marked variables below the current level, pathC counts those of
      the current level, and all of the latter are still below index bound of the trail. */
  ghost predicate Collecting(t: TrailState, seen: seq<bool>, out: seq<Lit>, pathC: nat, bound: nat) {
    && SeenOK(t, seen) && LowerLits(t, out) && bound <= |t.trail|
    && (forall i :: 1 <= i < |out| ==> out[i].v < |seen| && seen[out[i].v])
    && (forall v :: 0 <= v < |seen| && seen[v] && t.Lev(v) != t.DL() ==> HasVar(out, v))
    && (forall v :: 0 <= v < |seen| && seen[v] && t.Lev(v) == t.DL() ==> t.Pos(v) < bound)
    && pathC == |CurrentSeen(t, seen)|
  }

  lemma MarkCurrent(t: TrailState, seen: seq<bool>, out: seq<Lit>, pathC: nat, bound: nat, q: Lit)
    requires Collecting(t, seen, out, pathC, bound)
    requires t.Assigned(q.v) && t.Pos(q.v) < bound && 0 < t.Lev(q.v) == t.DL() && q.v < |seen| && !seen[q.v]
    ensures Collecting(t, seen[q.v := true], out, pathC + 1, bound)
  {
    assert CurrentSeen(t, seen[q.v := true]) == CurrentSeen(t, seen) + {q.v};
  }

  lemma PushVar(out: seq<Lit>, q: Lit)
    requires |out| >= 1
    ensures HasVar(out + [q], q.v)
    ensures forall v :: HasVar(out, v) ==> HasVar(out + [q], v)
  {
    var out' := out + [q];
    assert out'[|out|] == q;
    forall v | HasVar(out, v) ensures HasVar(out', v) {
      var i :| 1 <= i < |out| && out[i].v == v;
      assert out'[i].v == v;
    }
  }

  lemma MarkLower(t: TrailState, seen: seq<bool>, out: seq<Lit>, pathC: nat, bound: nat, q: Lit)
    requires Collecting(t, seen, out, pathC, bound)
    requires t.Val(q) == False && 0 < t.Lev(q.v) < t.DL() && q.v < |seen| && !seen[q.v]
    ensures Collecting(t, seen[q.v := true], out + [q], pathC, bound)
  {
    hide HasVar;
    assert CurrentSeen(t, seen[q.v := true]) == CurrentSeen(t, seen);
    PushVar(out, q);
  }

  lemma MarkStep(t: TrailState, seen: seq<bool>, out: seq<Lit>, pathC: nat, bound: nat, q: Lit)
    requires TrailOK(t) && Collecting(t, seen, out, pathC, bound)
    requires t.Val(q) == False && t.Pos(q.v) < bound && t.Lev(q.v) > 0 && q.v < |seen| && !seen[q.v]
    ensures var seen' := seen[q.v := true];
            if t.Lev(q.v) >= t.DL() then Collecting(t, seen', out, pathC + 1, bound)
            else Collecting(t, seen', out + [q], pathC, bound)
  {
    hide Collecting;
    assert t.Assigned(q.v) && LevelOK(t, q.v);
    if t.Lev(q.v) >= t.DL() {
      MarkCurrent(t, seen, out, pathC, bound, q);
    } else {
      MarkLower(t, seen, out, pathC, bound, q);
    }
  }

  // Marking more does not count less; a falsified clause of the current level counts something.
  lemma StillCounted(t: TrailState, seen0: seq<bool>, seen: seq<bool>)
    requires MarkedMore(seen0, seen)
    ensures |CurrentSeen(t, seen0)| <= |CurrentSeen(t, seen)|
  {
    SubsetSize(CurrentSeen(t, seen0), CurrentSeen(t, seen));
  }

  lemma ConflictCounted(t: TrailState, seen: seq<bool>, c: seq<Lit>, q: Lit)
    requires AllMarked(t, seen, c, 0) && q in c && t.Lev(q.v) == t.DL() > 0
    ensures |CurrentSeen(t, seen)| > 0
  {
    assert q.v in CurrentSeen(t, seen);
  }

  // While something is counted, a marked variable of the current level lies below bound.
  lemma SomeSeen(t: TrailState, seen: seq<bool>, out: seq<Lit>, pathC: nat, bound: nat) returns (v: Var)
    requires TrailOK(t) && Collecting(t, seen, out, pathC, bound) && pathC > 0
    ensures v < |seen| && seen[v] && t.Lev(v) == t.DL() && t.LevelStart() <= t.Pos(v) < bound
    ensures t.Assigned(v) && t.trail[t.Pos(v)].v == v
  {
    v :| v in CurrentSeen(t, seen);
    assert LevelOK(t, v);
  }

  lemma PopStep(t: TrailState, seen: seq<bool>, out: seq<Lit>, pathC: nat, bound: nat, index: nat)
    requires TrailOK(t) && Collecting(t, seen, out, pathC, bound) && t.DL() > 0
    requires index < bound && t.LevelStart() <= index
    requires seen[t.trail[index].v]
    requires forall k :: index < k < bound ==> t.trail[k].v < |seen| && !seen[t.trail[k].v]
    ensures pathC > 0 && Collecting(t, seen[t.trail[index].v := false], out, pathC - 1, index)
    ensures t.Lev(t.trail[index].v) == t.DL()
  {
    var x := t.trail[index].v;
    assert t.Val(t.trail[index]) == True && t.Assigned(x) && LevelOK(t, x);
    var seen' := seen[x := false];
    assert x in CurrentSeen(t, seen);
    assert CurrentSeen(t, seen') == CurrentSeen(t, seen) - {x};
    forall v | 0 <= v < |seen'| && seen'[v] && t.Lev(v) == t.DL() ensures t.Pos(v) < index {
      assert t.Assigned(v);
      assert t.trail[t.Pos(v)] == t.TrueLit(v);
    }
  }

  /** The literal just taken from the trail has a reason unless it was the last one counted. */
  lemma HasReason(mem: Memory, t: TrailState, seen: seq<bool>, out: seq<Lit>, pathC: nat, index: nat)
    requires TrailOK(t) && ReasonsOK(mem, t) && t.DL() > 0
    requires Collecting(t, seen, out, pathC, index) && pathC > 0
    requires index < |t.trail| && t.Lev(t.trail[index].v) == t.DL()
    ensures t.Why(t.trail[index].v) != CREF_UNDEF
  {
    var v := SomeSeen(t, seen, out, pathC, index);
    var x := t.trail[index].v;
    assert t.Val(t.trail[index]) == True && t.Assigned(x);
    assert ReasonOK(mem, t, x);
  }

  lemma StartCollecting(t: TrailState, seen: seq<bool>, out: seq<Lit>, mem: Memory, cr: CRef)
    requires TrailOK(t) && |seen| == |t.assigns| && |out| == 1 && (forall v :: 0 <= v < |seen| ==> !seen[v])
    requires DbOK(mem, |t.assigns|) && Live(mem, cr) && forall q :: q in mem[cr].lits ==> t.Val(q) == False
    ensures Collecting(t, seen, out, 0, |t.trail|)
    ensures |mem[cr].lits| >= 2
    ensures forall k :: 0 <= k < |mem[cr].lits| ==>
        t.Val(mem[cr].lits[k]) == False && t.Pos(mem[cr].lits[k].v) < |t.trail|
  {
    assert CurrentSeen(t, seen) == {};
    var c := mem[cr].lits;
    assert ClauseOK(c, |t.assigns|);
    forall k | 0 <= k < |c| ensures t.Val(c[k]) == False && t.Pos(c[k].v) < |t.trail| {
      assert c[k] in c;
      assert t.Assigned(c[k].v);
    }
  }

  lemma TrailLit(t: TrailState, i: nat)
    requires TrailOK(t) && i < |t.trail|
    ensures t.Val(t.trail[i]) == True && t.trail[i].v < |t.assigns| && t.TrueLit(t.trail[i].v) == t.trail[i]
    ensures t.Pos(t.trail[i].v) == i && t.Assigned(t.trail[i].v)
  {
    assert t.Val(t.trail[i]) == True;
  }

  lemma ReasonOf(mem: Memory, t: TrailState, p: Lit)
    requires TrailOK(t) && ReasonsOK(mem, t) && t.Val(p) == True && t.Why(p.v) != CREF_UNDEF
    ensures Live(mem, t.Why(p.v)) && Forced(t, mem[t.Why(p.v)].lits, p, t.Pos(p.v))
  {
    assert t.Assigned(p.v);
    assert ReasonOK(mem, t, p.v);
  }

  /** The reason to resolve on next. */
  lemma NextClause(F: Formula, mem: Memory, t: TrailState, seen: seq<bool>, out: seq<Lit>, pathC: nat, index: nat)
    requires TrailOK(t) && ReasonsOK(mem, t) && t.DL() > 0
    requires Collecting(t, seen, out, pathC, index) && pathC > 0
    requires index < |t.trail| && t.Lev(t.trail[index].v) == t.DL()
    ensures var p := t.trail[index];
            var r := t.Why(p.v);
            && p.v < |t.vardata| && r != CREF_UNDEF && Live(mem, r) && |mem[r].lits| >= 2 && mem[r].lits[0] == p
            && forall k :: 1 <= k < |mem[r].lits| ==> t.Val(mem[r].lits[k]) == False && t.Pos(mem[r].lits[k].v) < index
  {
    HasReason(mem, t, seen, out, pathC, index);
    TrailLit(t, index);
    ReasonOf(mem, t, t.trail[index]);
  }

  /** out[1..] are the marked variables, all below the current level; p is the only literal of
      the current level left, and no model of F agrees with the trail on p and the marks. */
  ghost predicate Uip(F: Formula, t: TrailState, seen: seq<bool>, out: seq<Lit>, p: Lit) {
    && p.v < |seen| && !seen[p.v] && t.TrueLit(p.v) == p && t.Val(p) == True && t.Lev(p.v) == t.DL()
    && SeenOK(t, seen) && LowerLits(t, out) && out[0] == Neg(p)
    && (forall v :: 0 <= v < |seen| && seen[v] ==> HasVar(out, v))
    && (forall i :: 1 <= i < |out| ==> out[i].v < |seen| && seen[out[i].v])
    && Conflicting(F, t, seen[p.v := true])
  }

  // No current-level variable is marked any more: the marks are the variables of out.
  lemma UipReached(F: Formula, t: TrailState, seen: seq<bool>, out: seq<Lit>, index: nat, p: Lit)
    requires TrailOK(t) && Collecting(t, seen, out, 0, index) && index < |t.trail| && t.trail[index] == p
    requires t.Lev(p.v) == t.DL() && p.v < |seen| && Conflicting(F, t, seen[p.v := true])
    ensures |out| >= 1 && Uip(F, t, seen, out[0 := Neg(p)], p)
  {
    TrailLit(t, index);
    assert CurrentSeen(t, seen) == {};
    var out' := out[0 := Neg(p)];
    forall v | 0 <= v < |seen| && seen[v] ensures t.Lev(v) != t.DL() && HasVar(out', v) {
      assert v !in CurrentSeen(t, seen);
      var i :| 1 <= i < |out| && out[i].v == v;
      assert out'[i].v == v;
    }
  }

  // ---------- minimisation ----------

  // The reason of v consists of marked literals and facts.
  ghost predicate Justified(mem: Memory, t: TrailState, seen: seq<bool>, v: Var) {
    && t.Why(v) != CREF_UNDEF && t.Why(v) in mem
    && AllMarked(t, seen, mem[t.Why(v)].lits, 1)
  }

  /** Every marked variable is in c or follows from other marked variables. */
  ghost predicate Covered(mem: Memory, t: TrailState, seen: seq<bool>, c: seq<Lit>) {
    forall v :: 0 <= v < |seen| && seen[v] ==> HasVar(c, v) || Justified(mem, t, seen, v)
  }

  // A model that falsifies c agrees with the trail on all marked variables.
  lemma {:induction false} CoveredAgrees(F: Formula, mem: Memory, t: TrailState, seen: seq<bool>, c: seq<Lit>,
          A: Model, v: Var)
    requires TrailOK(t) && ReasonsOK(mem, t) && Sound(F, mem, t) && SeenOK(t, seen)
    requires Covered(mem, t, seen, c) && Models(A, F) && !Sat(A, c)
    requires forall i :: 1 <= i < |c| ==> t.Val(c[i]) == False
    requires v < |seen| && seen[v]
    ensures Holds(A, t.TrueLit(v))
    decreases t.Pos(v)
  {
    if HasVar(c, v) {
      var i :| 1 <= i < |c| && c[i].v == v;
      assert c[i] in c;
    } else {
      assert ReasonOK(mem, t, v);
      var d := mem[t.Why(v)].lits;
      assert Sat(A, d);
      var q :| q in d && Holds(A, q);
      var k :| 0 <= k < |d| && d[k] == q;
      if k > 0 {
        if t.Lev(q.v) == 0 {
          Level0Implied(F, mem, t, q.v);
          ImpliedUnit(F, t.TrueLit(q.v));
        } else {
          CoveredAgrees(F, mem, t, seen, c, A, q.v);
        }
      }
    }
  }

  /** Dropping justified literals keeps the clause implied. */
  lemma MinimizedImplied(F: Formula, mem: Memory, t: TrailState, seen0: seq<bool>, seen: seq<bool>, p: Lit, c: seq<Lit>)
    requires TrailOK(t) && ReasonsOK(mem, t) && Sound(F, mem, t) && SeenOK(t, seen)
    requires p.v < |seen0| && t.TrueLit(p.v) == p && Conflicting(F, t, seen0[p.v := true])
    requires MarkedMore(seen0, seen) && Covered(mem, t, seen, c)
    requires |c| >= 1 && c[0] == Neg(p) && forall i :: 1 <= i < |c| ==> t.Val(c[i]) == False
    ensures Implied(F, c)
  {
    forall A | Models(A, F) ensures Sat(A, c) {
      if !Sat(A, c) {
        assert c[0] in c;
        forall v | 0 <= v < |seen| && seen[v] ensures Holds(A, t.TrueLit(v)) {
          CoveredAgrees(F, mem, t, seen, c, A, v);
        }
        AgreesLess(A, t, seen0, seen, p);
      }
    }
  }
}
