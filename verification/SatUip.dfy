/** Which literal conflict analysis stops at: the first unique implication point of the implication
    graph behind a conflict, and which variables its clause consists of. */
module SatUip {
  import opened SatTypes
  import opened SatCore
  import opened SatLearn

  // An assigned variable above level 0 that occurs in c from index start on.
  ghost predicate Occurs(t: TrailState, c: seq<Lit>, start: nat, v: Var) {
    t.Assigned(v) && t.Lev(v) > 0 && exists k :: start <= k < |c| && c[k].v == v
  }

  // The reason of x forces x by y.
  ghost predicate Leads(mem: Memory, t: TrailState, x: Var, y: Var) {
    t.Why(x) != CREF_UNDEF && t.Why(x) in mem && Occurs(t, mem[t.Why(x)].lits, 1, y)
  }

  // The variables of the falsified clause of a conflict.
  ghost function ConflictVars(mem: Memory, t: TrailState, confl: CRef): set<Var> {
    set v | 0 <= v < |t.assigns| && confl in mem && Occurs(t, mem[confl].lits, 0, v)
  }

  ghost predicate RootsOK(t: TrailState, roots: set<Var>) {
    forall v :: v in roots ==> t.Assigned(v)
  }

  // From the roots back along reasons, through variables at trail index i or later.
  ghost predicate Path(mem: Memory, t: TrailState, roots: set<Var>, i: nat, xs: seq<Var>) {
    && |xs| >= 1 && xs[0] in roots
    && forall k :: 0 <= k < |xs| - 1 ==> t.Pos(xs[k]) >= i && Leads(mem, t, xs[k], xs[k + 1])
  }

  // Such a path leads to v.
  ghost predicate Involved(mem: Memory, t: TrailState, roots: set<Var>, i: nat, v: Var) {
    exists xs :: Path(mem, t, roots, i, xs) && xs[|xs| - 1] == v
  }

  // v lies below index i of the trail and is where such a path first gets below it.
  ghost predicate Reached(mem: Memory, t: TrailState, roots: set<Var>, i: nat, v: Var) {
    t.Pos(v) < i && Involved(mem, t, roots, i, v)
  }

  ghost function InvolvedVars(mem: Memory, t: TrailState, roots: set<Var>, i: nat): set<Var> {
    set v | 0 <= v < |t.assigns| && Involved(mem, t, roots, i, v)
  }

  /** Every path from the roots to below index i + 1 of the trail enters the part of the current
      level below it at the literal at index i. */
  ghost predicate UniquePoint(mem: Memory, t: TrailState, roots: set<Var>, i: nat) {
    && i < |t.trail| && Reached(mem, t, roots, i + 1, t.trail[i].v)
    && forall v :: Reached(mem, t, roots, i + 1, v) && t.Lev(v) == t.DL() ==> v == t.trail[i].v
  }

  /** The literal at index i of the trail is the first such point, seen from the roots. */
  ghost predicate FirstIndex(mem: Memory, t: TrailState, roots: set<Var>, i: nat) {
    UniquePoint(mem, t, roots, i) && NoPoint(mem, t, roots, i + 1)
  }

  // The other variables reached there are those marked.
  ghost predicate FirstPoint(mem: Memory, t: TrailState, roots: set<Var>, i: nat, seen: seq<bool>) {
    && FirstIndex(mem, t, roots, i)
    && forall v: Var :: v < |seen| && seen[v] <==> Reached(mem, t, roots, i + 1, v) && v != t.trail[i].v
  }

  // No unique implication point at index i or later.
  ghost predicate NoPoint(mem: Memory, t: TrailState, roots: set<Var>, i: nat) {
    forall k :: i <= k < |t.trail| ==> !UniquePoint(mem, t, roots, k)
  }

  // The marked variables are those reached below index i.
  ghost predicate Front(mem: Memory, t: TrailState, roots: set<Var>, i: nat, seen: seq<bool>) {
    forall v: Var :: v < |seen| && seen[v] <==> Reached(mem, t, roots, i, v)
  }

  // ---------- marking a clause ----------

  ghost predicate MarkedBy(t: TrailState, seen0: seq<bool>, seen: seq<bool>, c: seq<Lit>, start: nat) {
    |seen| == |seen0| && forall v :: 0 <= v < |seen| ==> (seen[v] <==> seen0[v] || Occurs(t, c, start, v))
  }

  lemma MarkedByNone(t: TrailState, seen: seq<bool>, c: seq<Lit>, start: nat)
    requires start <= |c|
    ensures MarkedBy(t, seen, seen, c[..start], start) && AllMarked(t, seen, c[..start], start)
  {
  }

  lemma MarkedByNext(t: TrailState, seen0: seq<bool>, seen: seq<bool>, c: seq<Lit>, start: nat, j: nat)
    requires start <= j < |c| && MarkedBy(t, seen0, seen, c[..j], start) && t.Assigned(c[j].v) && c[j].v < |seen|
    ensures t.Lev(c[j].v) > 0 ==> MarkedBy(t, seen0, seen[c[j].v := true], c[..j + 1], start)
    ensures t.Lev(c[j].v) == 0 || seen[c[j].v] ==> MarkedBy(t, seen0, seen, c[..j + 1], start)
  {
    var c0, c1 := c[..j], c[..j + 1];
    assert c1 == c0 + [c[j]];
    forall v: Var ensures Occurs(t, c1, start, v) <==> Occurs(t, c0, start, v) || (v == c[j].v && t.Lev(v) > 0) {
      if Occurs(t, c0, start, v) {
        var k :| start <= k < |c0| && c0[k].v == v;
        assert c1[k].v == v;
      }
      if v == c[j].v { assert c1[j].v == v; }
    }
  }

  // ---------- the front moves down the trail ----------

  lemma AtIndex(t: TrailState, i: nat, v: Var)
    requires TrailOK(t) && i < |t.trail| && t.Assigned(v) && t.Pos(v) == i
    ensures v == t.trail[i].v
  {
    assert t.trail[t.Pos(v)] == t.TrueLit(v);
  }

  lemma LeadsDown(mem: Memory, t: TrailState, x: Var, y: Var)
    requires TrailOK(t) && ReasonsOK(mem, t) && t.Assigned(x) && Leads(mem, t, x, y)
    ensures t.Pos(y) < t.Pos(x)
  {
    assert ReasonOK(mem, t, x);
  }

  lemma PathAssigned(mem: Memory, t: TrailState, roots: set<Var>, i: nat, xs: seq<Var>, k: nat)
    requires RootsOK(t, roots) && Path(mem, t, roots, i, xs) && k < |xs|
    ensures t.Assigned(xs[k])
  {
    if k > 0 { assert Leads(mem, t, xs[k - 1], xs[k]); }
  }

  // Only the last step of a path can leave the literal at i.
  lemma StepAt(mem: Memory, t: TrailState, roots: set<Var>, i: nat, xs: seq<Var>, k: nat)
    requires RootsOK(t, roots) && TrailOK(t) && ReasonsOK(mem, t) && i < |t.trail|
    requires Path(mem, t, roots, i, xs) && k < |xs| - 1
    ensures t.Pos(xs[k]) >= i + 1 || (xs[k] == t.trail[i].v && k == |xs| - 2)
    ensures Leads(mem, t, xs[k], xs[k + 1])
  {
    hide Leads;
    PathAssigned(mem, t, roots, i, xs, k);
    if t.Pos(xs[k]) == i {
      AtIndex(t, i, xs[k]);
      LeadsDown(mem, t, xs[k], xs[k + 1]);
    }
  }

  // A path through variables from i on either stays above i or ends with a step from the literal at i.
  lemma LastStep(mem: Memory, t: TrailState, roots: set<Var>, i: nat, v: Var)
    requires RootsOK(t, roots) && TrailOK(t) && ReasonsOK(mem, t) && i < |t.trail| && Involved(mem, t, roots, i, v)
    ensures var x := t.trail[i].v;
      Involved(mem, t, roots, i + 1, v) || (Reached(mem, t, roots, i + 1, x) && Leads(mem, t, x, v))
  {
    hide Leads, TrailOK, ReasonsOK;
    var xs :| Path(mem, t, roots, i, xs) && xs[|xs| - 1] == v;
    var x, n := t.trail[i].v, |xs| - 1;
    forall k | 0 <= k < n
      ensures t.Pos(xs[k]) >= i + 1 || (xs[k] == x && k == n - 1)
      ensures Leads(mem, t, xs[k], xs[k + 1])
    {
      StepAt(mem, t, roots, i, xs, k);
    }
    if n > 0 && xs[n - 1] == x {
      var ys := xs[..n];
      TrailLit(t, i);
      assert Path(mem, t, roots, i + 1, ys) && ys[|ys| - 1] == x;
      assert Leads(mem, t, xs[n - 1], xs[n]);
    } else {
      assert Path(mem, t, roots, i + 1, xs);
    }
  }

  lemma OneMoreStep(mem: Memory, t: TrailState, roots: set<Var>, i: nat, v: Var)
    requires RootsOK(t, roots) && TrailOK(t) && ReasonsOK(mem, t) && i < |t.trail|
    requires Reached(mem, t, roots, i + 1, t.trail[i].v) && Leads(mem, t, t.trail[i].v, v)
    ensures Reached(mem, t, roots, i, v)
  {
    var x := t.trail[i].v;
    TrailLit(t, i);
    LeadsDown(mem, t, x, v);
    var xs :| Path(mem, t, roots, i + 1, xs) && xs[|xs| - 1] == x;
    var ys := xs + [v];
    forall k | 0 <= k < |ys| - 1 ensures t.Pos(ys[k]) >= i && Leads(mem, t, ys[k], ys[k + 1]) {
      if k < |xs| - 1 { assert Leads(mem, t, xs[k], xs[k + 1]); }
    }
    assert Path(mem, t, roots, i, ys) && ys[|ys| - 1] == v;
  }

  lemma StillReached(mem: Memory, t: TrailState, roots: set<Var>, i: nat, v: Var)
    requires RootsOK(t, roots) && TrailOK(t) && i < |t.trail| && Reached(mem, t, roots, i + 1, v) && v != t.trail[i].v
    ensures Reached(mem, t, roots, i, v)
  {
    var xs :| Path(mem, t, roots, i + 1, xs) && xs[|xs| - 1] == v;
    PathAssigned(mem, t, roots, i + 1, xs, |xs| - 1);
    if t.Pos(v) == i { AtIndex(t, i, v); }
    assert Path(mem, t, roots, i, xs);
  }

  /** What is reached below i: what was reached below i + 1, with the literal at i replaced by the
      rest of its reason. */
  lemma FrontStep(mem: Memory, t: TrailState, roots: set<Var>, i: nat, v: Var)
    requires RootsOK(t, roots) && TrailOK(t) && ReasonsOK(mem, t) && i < |t.trail|
    ensures var x := t.trail[i].v;
      Reached(mem, t, roots, i, v) <==>
        (Reached(mem, t, roots, i + 1, v) && v != x) || (Reached(mem, t, roots, i + 1, x) && Leads(mem, t, x, v))
  {
    hide Path, Leads;
    var x := t.trail[i].v;
    TrailLit(t, i);
    if Reached(mem, t, roots, i, v) { LastStep(mem, t, roots, i, v); }
    if Reached(mem, t, roots, i + 1, v) && v != x { StillReached(mem, t, roots, i, v); }
    if Reached(mem, t, roots, i + 1, x) && Leads(mem, t, x, v) { OneMoreStep(mem, t, roots, i, v); }
  }

  /** The variables involved down to index i: those above it, and if the literal at i is one of them
      the rest of its reason. */
  lemma InvolvedStep(mem: Memory, t: TrailState, roots: set<Var>, i: nat, v: Var)
    requires RootsOK(t, roots) && TrailOK(t) && ReasonsOK(mem, t) && i < |t.trail|
    ensures var x := t.trail[i].v;
      Involved(mem, t, roots, i, v) <==>
        Involved(mem, t, roots, i + 1, v) || (Reached(mem, t, roots, i + 1, x) && Leads(mem, t, x, v))
  {
    hide Path, Leads;
    var x := t.trail[i].v;
    if Involved(mem, t, roots, i, v) { LastStep(mem, t, roots, i, v); }
    if Involved(mem, t, roots, i + 1, v) { StillInvolved(mem, t, roots, i, v); }
    if Reached(mem, t, roots, i + 1, x) && Leads(mem, t, x, v) { OneMoreStep(mem, t, roots, i, v); }
  }

  lemma StillInvolved(mem: Memory, t: TrailState, roots: set<Var>, i: nat, v: Var)
    requires Involved(mem, t, roots, i + 1, v)
    ensures Involved(mem, t, roots, i, v)
  {
    var xs :| Path(mem, t, roots, i + 1, xs) && xs[|xs| - 1] == v;
    assert Path(mem, t, roots, i, xs);
  }

  /** The roots are the first front. */
  lemma RootsFront(mem: Memory, t: TrailState, roots: set<Var>, v: Var)
    requires RootsOK(t, roots) && TrailOK(t)
    ensures Reached(mem, t, roots, |t.trail|, v) <==> v in roots
    ensures Involved(mem, t, roots, |t.trail|, v) <==> v in roots
  {
    var n := |t.trail|;
    if v in roots {
      assert Path(mem, t, roots, n, [v]) && [v][|[v]| - 1] == v;
      assert t.trail[t.Pos(v)] == t.TrueLit(v);
    }
    if Involved(mem, t, roots, n, v) {
      var xs :| Path(mem, t, roots, n, xs) && xs[|xs| - 1] == v;
      assert t.trail[t.Pos(xs[0])] == t.TrueLit(xs[0]);
      assert |xs| == 1;
    }
  }

  lemma StartFront(mem: Memory, t: TrailState, confl: CRef, seen0: seq<bool>, seen: seq<bool>)
    requires TrailOK(t) && confl in mem && |seen| == |t.assigns| && MarkedBy(t, seen0, seen, mem[confl].lits, 0)
    requires forall v :: 0 <= v < |seen0| ==> !seen0[v]
    ensures Front(mem, t, ConflictVars(mem, t, confl), |t.trail|, seen)
  {
    hide Reached, Involved, Occurs;
    var roots := ConflictVars(mem, t, confl);
    ConflictRoots(mem, t, confl);
    forall v: Var ensures v < |seen| && seen[v] <==> Reached(mem, t, roots, |t.trail|, v) {
      RootsFront(mem, t, roots, v);
      OccursAssigned(t, mem[confl].lits, 0, v);
    }
  }

  lemma ConflictRoots(mem: Memory, t: TrailState, confl: CRef)
    ensures RootsOK(t, ConflictVars(mem, t, confl))
  {
  }

  /** Resolving on the literal at index i moves the front below i. */
  lemma ResolveFront(mem: Memory, t: TrailState, roots: set<Var>, i: nat, seen0: seq<bool>, seen: seq<bool>)
    requires RootsOK(t, roots) && TrailOK(t) && ReasonsOK(mem, t) && i < |t.trail| && |seen| == |t.assigns|
    requires t.trail[i].v < |seen0| && Front(mem, t, roots, i + 1, seen0[t.trail[i].v := true])
    requires t.Why(t.trail[i].v) != CREF_UNDEF && t.Why(t.trail[i].v) in mem
    requires MarkedBy(t, seen0, seen, mem[t.Why(t.trail[i].v)].lits, 1)
    requires !seen0[t.trail[i].v]
    ensures Front(mem, t, roots, i, seen)
  {
    hide Reached, Involved, Occurs;
    var x := t.trail[i].v;
    var seen1 := seen0[x := true];
    assert Reached(mem, t, roots, i + 1, x) by { assert seen1[x]; }
    forall v: Var ensures v < |seen| && seen[v] <==> Reached(mem, t, roots, i, v) {
      FrontStep(mem, t, roots, i, v);
      OccursAssigned(t, mem[t.Why(x)].lits, 1, v);
      TrailLit(t, i);
      if v < |seen| { assert v != x ==> seen1[v] == seen0[v]; }
    }
  }

  lemma OccursAssigned(t: TrailState, c: seq<Lit>, start: nat, v: Var)
    ensures Occurs(t, c, start, v) ==> v < |t.assigns|
  {
  }

  /** The scan down to the next marked literal passes nothing that was reached. */
  lemma {:induction false} SkipFront(mem: Memory, t: TrailState, roots: set<Var>, i: nat, bound: nat, seen: seq<bool>)
    requires RootsOK(t, roots) && TrailOK(t) && ReasonsOK(mem, t) && i < bound <= |t.trail|
    requires Front(mem, t, roots, bound, seen) && NoPoint(mem, t, roots, bound)
    requires forall k :: i < k < bound ==> t.trail[k].v < |seen| && !seen[t.trail[k].v]
    ensures Front(mem, t, roots, i + 1, seen) && NoPoint(mem, t, roots, i + 1)
    decreases bound - i
  {
    hide Reached, Leads, Involved;
    if i + 1 < bound {
      var k := bound - 1;
      forall v: Var ensures Reached(mem, t, roots, k, v) <==> Reached(mem, t, roots, bound, v) {
        FrontStep(mem, t, roots, k, v);
      }
      SkipFront(mem, t, roots, i, k, seen);
    }
  }

  // While another variable of the current level is marked, the literal at index i is no such point.
  lemma NotYet(mem: Memory, t: TrailState, roots: set<Var>, i: nat, seen: seq<bool>, v: Var)
    requires i < |t.trail| && t.trail[i].v < |seen| && !seen[t.trail[i].v]
    requires Front(mem, t, roots, i + 1, seen[t.trail[i].v := true]) && NoPoint(mem, t, roots, i + 1)
    requires v < |seen| && seen[v] && t.Lev(v) == t.DL()
    ensures NoPoint(mem, t, roots, i)
  {
    hide Reached, Involved;
    assert seen[t.trail[i].v := true][v];
  }

  // ---------- everything involved is marked once ----------

  // The variables marked since seen0.
  ghost function Fresh(seen0: seq<bool>, seen: seq<bool>): set<Var> {
    set v | 0 <= v < |seen| && v < |seen0| && seen[v] && !seen0[v]
  }

  lemma FreshNone(seen: seq<bool>)
    ensures Fresh(seen, seen) == {}
  {
  }

  lemma FreshNext(seen0: seq<bool>, seen: seq<bool>, v: Var)
    requires v < |seen| == |seen0| && !seen[v] && MarkedMore(seen0, seen)
    ensures Fresh(seen0, seen[v := true]) == Fresh(seen0, seen) + {v} && v !in Fresh(seen0, seen)
  {
  }

  // What has been involved before resolving with the next clause.
  ghost function InvolvedBefore(mem: Memory, t: TrailState, confl: CRef, index: nat, start: nat): set<Var> {
    if start == 0 then {} else InvolvedVars(mem, t, ConflictVars(mem, t, confl), index + 1)
  }

  /** One resolution step marks exactly what becomes involved. */
  lemma FreshInvolved(mem: Memory, t: TrailState, confl: CRef, index: nat, seen0: seq<bool>, seen: seq<bool>, cr: CRef,
          start: nat)
    requires TrailOK(t) && ReasonsOK(mem, t) && cr in mem && NextFront(mem, t, confl, index, seen0, cr, start)
    requires MarkedBy(t, seen0, seen, mem[cr].lits, start)
    ensures InvolvedBefore(mem, t, confl, index, start) !! Fresh(seen0, seen)
    ensures InvolvedVars(mem, t, ConflictVars(mem, t, confl), index) ==
            InvolvedBefore(mem, t, confl, index, start) + Fresh(seen0, seen)
  {
    hide ConflictVars, RootsOK, Occurs, Involved, NoPoint;
    var roots := ConflictVars(mem, t, confl);
    ConflictRoots(mem, t, confl);
    forall v: Var
      ensures !(v in InvolvedBefore(mem, t, confl, index, start) && v in Fresh(seen0, seen))
      ensures v in InvolvedVars(mem, t, roots, index) <==>
              v in InvolvedBefore(mem, t, confl, index, start) || v in Fresh(seen0, seen)
    {
      OccursAssigned(t, mem[cr].lits, start, v);
      if start == 0 {
        RootsFront(mem, t, roots, v);
        RootsOccur(mem, t, confl, v);
      } else {
        InvolvedNow(mem, t, roots, index, seen0, v);
      }
    }
  }

  lemma RootsOccur(mem: Memory, t: TrailState, confl: CRef, v: Var)
    requires confl in mem
    ensures v in ConflictVars(mem, t, confl) <==> Occurs(t, mem[confl].lits, 0, v)
  {
  }

  // A variable of the reason of the literal at index is marked already if and only if it is involved.
  lemma InvolvedNow(mem: Memory, t: TrailState, roots: set<Var>, i: nat, seen0: seq<bool>, v: Var)
    requires RootsOK(t, roots) && TrailOK(t) && ReasonsOK(mem, t) && i < |t.trail|
    requires t.trail[i].v < |seen0| == |t.assigns| && !seen0[t.trail[i].v]
    requires Front(mem, t, roots, i + 1, seen0[t.trail[i].v := true])
    ensures Involved(mem, t, roots, i, v) <==> Involved(mem, t, roots, i + 1, v) || Leads(mem, t, t.trail[i].v, v)
    ensures v < |seen0| && seen0[v] ==> Involved(mem, t, roots, i + 1, v)
    ensures Leads(mem, t, t.trail[i].v, v) && Involved(mem, t, roots, i + 1, v) ==> v < |seen0| && seen0[v]
  {
    hide Involved, Leads;
    var x := t.trail[i].v;
    var seen1 := seen0[x := true];
    TrailLit(t, i);
    assert seen1[x];
    assert Reached(mem, t, roots, i + 1, x);
    InvolvedStep(mem, t, roots, i, v);
    if v < |seen0| && seen0[v] { assert seen1[v]; }
    if Leads(mem, t, x, v) && Involved(mem, t, roots, i + 1, v) {
      LeadsDown(mem, t, x, v);
      assert Reached(mem, t, roots, i + 1, v);
      assert v != x && seen1[v];
    }
  }

  lemma {:induction false} SkipInvolved(mem: Memory, t: TrailState, roots: set<Var>, i: nat, bound: nat,
          seen: seq<bool>)
    requires RootsOK(t, roots) && TrailOK(t) && ReasonsOK(mem, t) && i < bound <= |t.trail|
    requires Front(mem, t, roots, bound, seen) && NoPoint(mem, t, roots, bound)
    requires forall k :: i < k < bound ==> t.trail[k].v < |seen| && !seen[t.trail[k].v]
    ensures InvolvedVars(mem, t, roots, i + 1) == InvolvedVars(mem, t, roots, bound)
    decreases bound - i
  {
    hide Involved, Leads, NoPoint;
    if i + 1 < bound {
      var k := bound - 1;
      SkipFront(mem, t, roots, k - 1, bound, seen);
      forall v: Var ensures Involved(mem, t, roots, k, v) <==> Involved(mem, t, roots, bound, v) {
        InvolvedStep(mem, t, roots, k, v);
      }
      SkipInvolved(mem, t, roots, i, k, seen);
    }
  }

  // ---------- the loop of the analysis ----------

  // The literal at index has been taken out, the last one below bound that was marked.
  ghost predicate Popped(t: TrailState, seen0: seq<bool>, seen: seq<bool>, index: nat, bound: nat) {
    && index < bound <= |t.trail| && t.trail[index].v < |seen| == |seen0| && !seen[t.trail[index].v]
    && seen0 == seen[t.trail[index].v := true]
    && forall k :: index < k < bound ==> t.trail[k].v < |seen| && !seen0[t.trail[k].v]
  }

  // Before resolving with cr: the falsified clause, or the reason of the literal at index.
  ghost predicate NextFront(mem: Memory, t: TrailState, confl: CRef, index: nat, seen: seq<bool>, cr: CRef,
          start: nat)
  {
    var roots := ConflictVars(mem, t, confl);
    && NoPoint(mem, t, roots, index) && |seen| == |t.assigns|
    && (if start == 0 then cr == confl && index == |t.trail| && forall v :: 0 <= v < |seen| ==> !seen[v]
        else
          && start == 1 && index < |t.trail| && t.trail[index].v < |seen| && !seen[t.trail[index].v]
          && cr == t.Why(t.trail[index].v) != CREF_UNDEF
          && Front(mem, t, roots, index + 1, seen[t.trail[index].v := true]))
  }

  lemma NoPointYet(mem: Memory, t: TrailState, roots: set<Var>)
    ensures NoPoint(mem, t, roots, |t.trail|)
  {
  }

  /** When no other one is, it is the first. */
  lemma PointReached(mem: Memory, t: TrailState, roots: set<Var>, i: nat, seen: seq<bool>)
    requires i < |t.trail| && t.trail[i].v < |seen| && !seen[t.trail[i].v]
    requires Front(mem, t, roots, i + 1, seen[t.trail[i].v := true]) && NoPoint(mem, t, roots, i + 1)
    requires forall v :: 0 <= v < |seen| && seen[v] ==> t.Lev(v) != t.DL()
    ensures FirstPoint(mem, t, roots, i, seen)
  {
    hide Reached, Involved;
    var x := t.trail[i].v;
    var seen1 := seen[x := true];
    assert seen1[x];
    forall v: Var ensures v < |seen| && seen[v] <==> Reached(mem, t, roots, i + 1, v) && v != x {
      if v < |seen| { assert v != x ==> seen1[v] == seen[v]; }
    }
  }

  // One resolution step.
  lemma MovedFront(mem: Memory, t: TrailState, confl: CRef, index: nat, seen0: seq<bool>, seen: seq<bool>, cr: CRef,
          start: nat)
    requires TrailOK(t) && ReasonsOK(mem, t) && cr in mem && NextFront(mem, t, confl, index, seen0, cr, start)
    requires MarkedBy(t, seen0, seen, mem[cr].lits, start)
    ensures var roots := ConflictVars(mem, t, confl);
      RootsOK(t, roots) && Front(mem, t, roots, index, seen) && NoPoint(mem, t, roots, index)
  {
    hide Front, NoPoint, ConflictVars, RootsOK;
    MarkedLength(t, seen0, seen, mem[cr].lits, start);
    ConflictRoots(mem, t, confl);
    if start == 0 {
      StartFront(mem, t, confl, seen0, seen);
    } else {
      ResolveFront(mem, t, ConflictVars(mem, t, confl), index, seen0, seen);
    }
  }

  lemma MarkedLength(t: TrailState, seen0: seq<bool>, seen: seq<bool>, c: seq<Lit>, start: nat)
    requires MarkedBy(t, seen0, seen, c, start)
    ensures |seen| == |seen0|
  {
  }

  lemma PoppedFront(mem: Memory, t: TrailState, roots: set<Var>, index: nat, bound: nat, seen0: seq<bool>,
          seen: seq<bool>)
    requires RootsOK(t, roots) && TrailOK(t) && ReasonsOK(mem, t) && Popped(t, seen0, seen, index, bound)
    requires Front(mem, t, roots, bound, seen0) && NoPoint(mem, t, roots, bound)
    ensures index < |t.trail| && t.trail[index].v < |seen| && !seen[t.trail[index].v]
    ensures Front(mem, t, roots, index + 1, seen[t.trail[index].v := true]) && NoPoint(mem, t, roots, index + 1)
    ensures InvolvedVars(mem, t, roots, index + 1) == InvolvedVars(mem, t, roots, bound)
  {
    hide Front, NoPoint, InvolvedVars;
    SkipFront(mem, t, roots, index, bound, seen0);
    SkipInvolved(mem, t, roots, index, bound, seen0);
  }

  // Something else is still counted.
  lemma StillAhead(mem: Memory, t: TrailState, roots: set<Var>, index: nat, seen: seq<bool>, out: seq<Lit>, pathC: nat)
    requires TrailOK(t) && Collecting(t, seen, out, pathC, index) && pathC > 0
    requires index < |t.trail| && t.trail[index].v < |seen| && !seen[t.trail[index].v]
    requires Front(mem, t, roots, index + 1, seen[t.trail[index].v := true]) && NoPoint(mem, t, roots, index + 1)
    ensures NoPoint(mem, t, roots, index) && |seen| == |t.assigns|
  {
    hide Front, NoPoint, HasVar, LowerLits;
    var v := SomeSeen(t, seen, out, pathC, index);
    NotYet(mem, t, roots, index, seen, v);
  }

  lemma UipFirst(F: Formula, mem: Memory, t: TrailState, roots: set<Var>, i: nat, seen: seq<bool>, out: seq<Lit>)
    requires i < |t.trail| && Uip(F, t, seen, out, t.trail[i])
    requires Front(mem, t, roots, i + 1, seen[t.trail[i].v := true]) && NoPoint(mem, t, roots, i + 1)
    ensures FirstPoint(mem, t, roots, i, seen)
  {
    hide Front, NoPoint, Conflicting, FirstPoint;
    forall v | 0 <= v < |seen| && seen[v] ensures t.Lev(v) != t.DL() {
      assert HasVar(out, v);
    }
    PointReached(mem, t, roots, i, seen);
  }
}
