/** Minimisation of the learnt clause on values: the marks of the redundancy check, and what
    dropping justified literals keeps. */
module SatMinimize {
  import opened Basics
  import opened SatTypes
  import opened SatCore
  import opened SatLearn
  import opened SatSteps

  ghost predicate InVars(c: seq<Lit>, v: Var) {
    exists i :: 0 <= i < |c| && c[i].v == v
  }

  lemma InVarsPush(c: seq<Lit>, q: Lit)
    ensures InVars(c + [q], q.v)
    ensures forall v :: InVars(c, v) ==> InVars(c + [q], v)
    ensures forall v :: InVars(c + [q], v) ==> InVars(c, v) || v == q.v
  {
    assert (c + [q])[|c|] == q;
    forall v | InVars(c, v) ensures InVars(c + [q], v) {
      var i :| 0 <= i < |c| && c[i].v == v;
      assert (c + [q])[i].v == v;
    }
  }

  // Every marked variable is on the list of marks to clear.
  ghost predicate ClearList(seen: seq<bool>, toclear: seq<Lit>) {
    && (forall v :: 0 <= v < |seen| && seen[v] ==> InVars(toclear, v))
    && (forall i :: 0 <= i < |toclear| ==> toclear[i].v < |seen|)
  }

  // Exactly the variables of added have been marked since seen0.
  ghost predicate MarkedSince(seen0: seq<bool>, seen: seq<bool>, added: seq<Lit>) {
    && MarkedMore(seen0, seen)
    && (forall v :: 0 <= v < |seen| && seen[v] && !seen0[v] ==> InVars(added, v))
    && (forall i :: 0 <= i < |added| ==> added[i].v < |seen| && !seen0[added[i].v])
  }

  lemma MarkFresh(seen0: seq<bool>, seen: seq<bool>, added: seq<Lit>, q: Lit)
    requires MarkedSince(seen0, seen, added) && q.v < |seen| && !seen[q.v]
    ensures MarkedSince(seen0, seen[q.v := true], added + [q])
  {
    InVarsPush(added, q);
  }

  lemma JustifiedMore(mem: Memory, t: TrailState, seen: seq<bool>, seen': seq<bool>, v: Var)
    requires MarkedMore(seen, seen') && Justified(mem, t, seen, v)
    ensures Justified(mem, t, seen', v)
  {
  }

  /** The redundancy check of p: p and every variable marked by it, except the one being
      expanded, has a reason made of marked literals or is still on the stack. */
  ghost predicate Expanding(mem: Memory, t: TrailState, seen0: seq<bool>, seen: seq<bool>, stack: seq<Lit>, p: Var,
          x: Var)
  {
    && SeenOK(t, seen) && MarkedMore(seen0, seen)
    && (forall i :: 0 <= i < |stack| ==> t.Assigned(stack[i].v) && t.Why(stack[i].v) != CREF_UNDEF)
    && (forall v :: (v == p || (0 <= v < |seen| && seen[v] && !seen0[v])) && v != x ==>
          Justified(mem, t, seen, v) || InVars(stack, v))
  }

  // No variable is being expanded.
  ghost predicate Redundancy(mem: Memory, t: TrailState, seen0: seq<bool>, seen: seq<bool>, stack: seq<Lit>, p: Var) {
    p < |seen| && Expanding(mem, t, seen0, seen, stack, p, |seen|)
  }

  lemma PopStack(mem: Memory, t: TrailState, seen0: seq<bool>, seen: seq<bool>, stack: seq<Lit>, p: Var)
    requires Redundancy(mem, t, seen0, seen, stack, p) && |stack| > 0
    ensures Expanding(mem, t, seen0, seen, stack[..|stack| - 1], p, stack[|stack| - 1].v)
  {
    var x := stack[|stack| - 1].v;
    var rest := stack[..|stack| - 1];
    forall v | InVars(stack, v) && v != x ensures InVars(rest, v) {
      var i :| 0 <= i < |stack| && stack[i].v == v;
      assert rest[i].v == v;
    }
  }

  lemma OnStack(mem: Memory, t: TrailState, seen0: seq<bool>, seen: seq<bool>, stack: seq<Lit>, p: Var)
    requires Redundancy(mem, t, seen0, seen, stack, p) && |stack| > 0
    ensures var x := stack[|stack| - 1].v; t.Assigned(x) && t.Why(x) != CREF_UNDEF
  {
  }

  lemma StartRedundancy(mem: Memory, t: TrailState, seen: seq<bool>, p: Lit, toclear: seq<Lit>)
    requires SeenOK(t, seen) && p.v < |seen| && t.Assigned(p.v) && t.Why(p.v) != CREF_UNDEF
    ensures Redundancy(mem, t, seen, seen, [p], p.v)
    ensures MarkedSince(seen, seen, toclear[|toclear|..])
  {
    assert [p][0].v == p.v;
  }

  lemma EndRedundancy(mem: Memory, t: TrailState, seen0: seq<bool>, seen: seq<bool>, p: Var)
    requires Redundancy(mem, t, seen0, seen, [], p)
    ensures SeenOK(t, seen) && MarkedMore(seen0, seen) && Justified(mem, t, seen, p)
    ensures forall v :: 0 <= v < |seen| && seen[v] && !seen0[v] ==> Justified(mem, t, seen, v)
  {
  }

  // The literals of a reason.
  lemma ReasonFacts(mem: Memory, t: TrailState, x: Var)
    requires TrailOK(t) && ReasonsOK(mem, t) && DbOK(mem, |t.assigns|) && t.Assigned(x) && t.Why(x) != CREF_UNDEF
    ensures x < |t.vardata| && t.Why(x) in mem
    ensures var c := mem[t.Why(x)].lits;
      |c| >= 2 && InRange(c, |t.assigns|) && forall k :: 1 <= k < |c| ==> t.Val(c[k]) == False && t.Assigned(c[k].v)
  {
    assert ReasonOK(mem, t, x);
    var c := mem[t.Why(x)].lits;
    assert ClauseOK(c, |t.assigns|);
    forall k | 1 <= k < |c| ensures t.Val(c[k]) == False && t.Assigned(c[k].v) {
      assert t.Val(c[k]) == False;
    }
  }

  lemma MarkExpanding(mem: Memory, t: TrailState, seen0: seq<bool>, seen: seq<bool>, stack: seq<Lit>, p: Var, x: Var,
          q: Lit)
    requires Expanding(mem, t, seen0, seen, stack, p, x)
    requires q.v < |seen| && t.Assigned(q.v) && t.Lev(q.v) > 0 && t.Why(q.v) != CREF_UNDEF
    ensures Expanding(mem, t, seen0, seen[q.v := true], stack + [q], p, x)
  {
    var seen' := seen[q.v := true];
    InVarsPush(stack, q);
    forall v | (v == p || (0 <= v < |seen'| && seen'[v] && !seen0[v])) && v != x
      ensures Justified(mem, t, seen', v) || InVars(stack + [q], v)
    {
      if Justified(mem, t, seen, v) { JustifiedMore(mem, t, seen, seen', v); }
    }
  }

  lemma Expanded(mem: Memory, t: TrailState, seen0: seq<bool>, seen: seq<bool>, stack: seq<Lit>, p: Var, x: Var)
    requires p < |seen| && Expanding(mem, t, seen0, seen, stack, p, x) && Justified(mem, t, seen, x)
    ensures Redundancy(mem, t, seen0, seen, stack, p)
  {
  }

  ghost function Unmarked(seen: seq<bool>): set<Var> {
    set v: Var | 0 <= v < |seen| && !seen[v]
  }

  lemma UnmarkedLess(seen0: seq<bool>, seen: seq<bool>)
    requires MarkedMore(seen0, seen)
    ensures Unmarked(seen) <= Unmarked(seen0)
    ensures seen != seen0 ==> Unmarked(seen) < Unmarked(seen0)
  {
    if seen != seen0 {
      var v :| 0 <= v < |seen| && seen[v] != seen0[v];
      assert v in Unmarked(seen0) && v !in Unmarked(seen);
    }
  }

  // ---------- dropping literals ----------

  lemma CoveredMore(mem: Memory, t: TrailState, seen: seq<bool>, seen': seq<bool>, c: seq<Lit>)
    requires Covered(mem, t, seen, c) && MarkedMore(seen, seen')
    requires forall v :: 0 <= v < |seen'| && seen'[v] && !seen[v] ==> Justified(mem, t, seen', v)
    ensures Covered(mem, t, seen', c)
  {
    forall v | 0 <= v < |seen'| && seen'[v] ensures HasVar(c, v) || Justified(mem, t, seen', v) {
      if seen[v] && !HasVar(c, v) { JustifiedMore(mem, t, seen, seen', v); }
    }
  }

  lemma CoveredDrop(mem: Memory, t: TrailState, seen: seq<bool>, c: seq<Lit>, j: nat)
    requires Covered(mem, t, seen, c) && 1 <= j < |c| && Justified(mem, t, seen, c[j].v)
    ensures Covered(mem, t, seen, Without(c, j))
  {
    var d := Without(c, j);
    forall v | HasVar(c, v) && v != c[j].v ensures HasVar(d, v) {
      var i :| 1 <= i < |c| && c[i].v == v;
      assert d[if i < j then i else i - 1].v == v;
    }
  }

  lemma LowerDrop(t: TrailState, c: seq<Lit>, j: nat)
    requires LowerLits(t, c) && 1 <= j < |c|
    ensures LowerLits(t, Without(c, j)) && Without(c, j)[0] == c[0]
  {
    var d := Without(c, j);
    forall i | 0 <= i < |d| ensures d[i] == c[if i < j then i else i + 1] {
    }
  }

  lemma SqueezeKeep<X>(out: seq<X>, i: nat, j: nat)
    requires j <= i < |out|
    ensures Compacted(out[j := out[i]], i + 1, j + 1) == Compacted(out, i, j)
  {
  }

  lemma SqueezeDrop<X>(out: seq<X>, i: nat, j: nat)
    requires j <= i < |out|
    ensures |Compacted(out, i, j)| == j + |out| - i && Compacted(out, i, j)[j] == out[i]
    ensures Compacted(out, i + 1, j) == Without(Compacted(out, i, j), j)
  {
  }

  lemma SqueezeEnds<X>(out: seq<X>)
    ensures Compacted(out, 0, 0) == out
    ensures forall j :: 0 <= j <= |out| ==> Compacted(out, |out|, j) == out[..j]
  {
    forall j | 0 <= j <= |out| ensures Compacted(out, |out|, j) == out[..j] {
      assert out[|out|..] == [];
    }
  }

  // ---------- the result of the analysis ----------

  /** c is implied, falsified, and its only literal of the current level comes first; btlevel is
      the highest other level, and a literal of it comes second. */
  ghost predicate Asserting(t: TrailState, c: seq<Lit>, btlevel: nat) {
    && LowerLits(t, c) && t.Val(c[0]) == False && t.Lev(c[0].v) == t.DL() && btlevel < t.DL()
    && (if |c| == 1 then btlevel == 0 else t.Lev(c[1].v) == btlevel)
    && (forall i :: 1 <= i < |c| ==> t.Lev(c[i].v) <= btlevel)
  }

  // The first literal of the highest level, the one at index 0 apart.
  ghost predicate FirstHighest(t: TrailState, c: seq<Lit>, m: nat) {
    && 1 <= m < |c| && (forall k :: 1 <= k < |c| ==> t.Lev(c[k].v) <= t.Lev(c[m].v))
    && (forall k :: 1 <= k < m ==> t.Lev(c[k].v) < t.Lev(c[m].v))
  }

  lemma SwapLower(t: TrailState, c: seq<Lit>, m: nat)
    requires LowerLits(t, c) && 1 <= m < |c|
    ensures LowerLits(t, Exchanged(c, m, 1)) && Exchanged(c, m, 1)[0] == c[0]
    ensures SameLits(Exchanged(c, m, 1), c)
  {
    SwapSame(c, m, 1);
  }

  lemma LowerLit(t: TrailState, c: seq<Lit>, j: nat)
    requires LowerLits(t, c) && 1 <= j < |c|
    ensures t.Assigned(c[j].v)
  {
  }

  // Before minimisation every marked variable is in the clause.
  lemma UipFacts(F: Formula, mem: Memory, t: TrailState, seen: seq<bool>, out: seq<Lit>, p: Lit)
    requires Uip(F, t, seen, out, p) && TrailOK(t)
    ensures Covered(mem, t, seen, out) && LowerLits(t, out) && SeenOK(t, seen) && |out| >= 1 && out[0] == Neg(p)
    ensures p.v < |seen| && Conflicting(F, t, seen[p.v := true]) && t.TrueLit(p.v) == p && t.Val(p) == True
    ensures forall i :: 1 <= i < |out| ==> out[i].v < |t.vardata|
  {
  }

  lemma UipClear(F: Formula, t: TrailState, seen: seq<bool>, out: seq<Lit>, p: Lit)
    requires Uip(F, t, seen, out, p)
    ensures ClearList(seen, out) && t.Val(Neg(p)) == False && t.Lev(p.v) == t.DL()
  {
    forall v | 0 <= v < |seen| && seen[v] ensures InVars(out, v) {
      var i :| 1 <= i < |out| && out[i].v == v;
    }
  }

  lemma MinimizedClause(F: Formula, mem: Memory, t: TrailState, seen0: seq<bool>, seen: seq<bool>, p: Lit, c: seq<Lit>)
    requires TrailOK(t) && ReasonsOK(mem, t) && Sound(F, mem, t) && SeenOK(t, seen)
    requires p.v < |seen0| && t.TrueLit(p.v) == p && Conflicting(F, t, seen0[p.v := true])
    requires MarkedMore(seen0, seen) && Covered(mem, t, seen, c) && LowerLits(t, c) && c[0] == Neg(p)
    ensures Implied(F, c)
  {
    MinimizedImplied(F, mem, t, seen0, seen, p, c);
  }

  /** After backtracking to its level the clause is ready to be learnt. */
  lemma AssertingFacts(t: TrailState, c: seq<Lit>, btlevel: nat)
    requires TrailOK(t) && Asserting(t, c, btlevel)
    ensures |c| >= 1 && btlevel < |t.lim| && t.lim[btlevel] <= t.LevelStart() <= |t.trail|
    ensures var u := Cancelled(t, btlevel);
      && u.Val(c[0]) == Undef && c[0].v < |t.assigns| == |t.vardata| == |t.pos|
      && (forall i :: 1 <= i < |c| ==> u.Val(c[i]) == False)
      && u.DL() == btlevel
      && (if |c| == 1 then btlevel == 0 else u.Lev(c[1].v) == u.DL() && ClauseOK(c, |u.assigns|))
  {
    var u := Cancelled(t, btlevel);
    CancelVal(t, btlevel, c[0]);
    forall i | 1 <= i < |c| ensures u.Val(c[i]) == False {
      CancelVal(t, btlevel, c[i]);
    }
    forall i, j | 0 <= i < j < |c| ensures c[i].v != c[j].v {
      assert t.Lev(c[j].v) < t.DL();
    }
  }
}
