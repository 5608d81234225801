/** The remaining steps of the search: opening and undoing decision levels, adding, deleting
    and reordering clauses, each with the invariants it keeps. */
module SatSteps {
  import opened SatTypes
  import opened SatCore
  import opened SatPropagate
  import opened SatLearn
  import opened ClauseAllocators

  // ---------- decision levels ----------

  function Opened(t: TrailState): TrailState {
    t.(lim := t.lim + [|t.trail|])
  }

  lemma OpenTrail(mem: Memory, t: TrailState)
    requires TrailOK(t) && ReasonsOK(mem, t)
    ensures TrailOK(Opened(t)) && ReasonsOK(mem, Opened(t))
  {
    var u := Opened(t);
    forall v | u.Assigned(v)
      ensures u.Pos(v) < |u.trail| && u.trail[u.Pos(v)] == u.TrueLit(v) && LevelOK(u, v) && ReasonOK(mem, u, v)
    {
      assert t.Assigned(v) && LevelOK(t, v) && ReasonOK(mem, t, v);
      if t.Why(v) != CREF_UNDEF {
        var c := mem[t.Why(v)].lits;
        assert Forced(t, c, t.TrueLit(v), t.Pos(v));
        forall k | 1 <= k < |c| ensures u.Val(c[k]) == False && u.Pos(c[k].v) < t.Pos(v) {
          assert t.Val(c[k]) == False;
        }
      }
    }
    forall i | 0 <= i < |u.trail| ensures u.Val(u.trail[i]) == True && u.Pos(u.trail[i].v) == i {
      assert t.Val(t.trail[i]) == True;
    }
  }

  lemma SameValuesProp(mem: Memory, t: TrailState, u: TrailState, limit: nat)
    requires PropOK(mem, t, limit)
    requires u.assigns == t.assigns && u.vardata == t.vardata && u.pos == t.pos
    ensures PropOK(mem, u, limit)
  {
    forall cr | Live(mem, cr) ensures ClauseProp(u, mem[cr].lits, limit) {
      var c := mem[cr].lits;
      assert ClauseProp(t, c, limit);
      forall lev | TrueBelow(t, c, lev) ensures TrueBelow(u, c, lev) {
        var p :| p in c && t.Val(p) == True && t.Lev(p.v) <= lev;
        assert u.Val(p) == True;
      }
    }
  }

  // ---------- undoing levels ----------

  // The assignment after the trail has been undone down to index n.
  function Undone(t: TrailState, n: nat): seq<LBool> {
    seq(|t.assigns|, v requires 0 <= v < |t.assigns| => if t.Pos(v) >= n then Undef else t.assigns[v])
  }

  function Cancelled(t: TrailState, level: nat): TrailState
    requires level < |t.lim| && t.lim[level] <= |t.trail|
  {
    TrailState(Undone(t, t.lim[level]), t.vardata, t.trail[..t.lim[level]], t.lim[..level], t.pos)
  }

  lemma UndoneAll(t: TrailState)
    requires TrailOK(t)
    ensures Undone(t, |t.trail|) == t.assigns
  {
    var a := Undone(t, |t.trail|);
    forall v | 0 <= v < |t.assigns| ensures a[v] == t.assigns[v] {
      if t.Assigned(v) { assert t.Pos(v) < |t.trail|; }
    }
  }

  lemma UndoneStep(t: TrailState, n: nat)
    requires TrailOK(t) && n < |t.trail|
    ensures t.trail[n].v < |t.assigns|
    ensures Undone(t, n) == Undone(t, n + 1)[t.trail[n].v := Undef]
  {
    assert t.Val(t.trail[n]) == True;
    var a, b := Undone(t, n), Undone(t, n + 1)[t.trail[n].v := Undef];
    forall v | 0 <= v < |t.assigns| ensures a[v] == b[v] {
      if t.Pos(v) == n && t.Assigned(v) { assert t.trail[t.Pos(v)] == t.TrueLit(v); }
    }
  }

  // The saved signs after the trail has been undone down to index n; in mode 1 only those after the
  // last decision are saved.
  function Saved(t: TrailState, signs: seq<bool>, mode: nat, n: nat): seq<bool> {
    seq(|signs|, v requires 0 <= v < |signs| =>
      if t.Assigned(v) && t.Pos(v) >= n && (mode > 1 || (mode == 1 && t.Pos(v) > t.LevelStart())) then t.TrueLit(v).neg
          else signs[v])
  }

  lemma SavedAll(t: TrailState, signs: seq<bool>, mode: nat)
    requires TrailOK(t)
    ensures Saved(t, signs, mode, |t.trail|) == signs
  {
    var a := Saved(t, signs, mode, |t.trail|);
    forall v | 0 <= v < |signs| ensures a[v] == signs[v] {
      if t.Assigned(v) { assert t.Pos(v) < |t.trail|; }
    }
  }

  lemma SavedStep(t: TrailState, signs: seq<bool>, mode: nat, n: nat)
    requires TrailOK(t) && n < |t.trail| && |signs| == |t.assigns|
    ensures t.trail[n].v < |signs| && |Saved(t, signs, mode, n)| == |Saved(t, signs, mode, n + 1)| == |signs|
    ensures Saved(t, signs, mode, n) ==
            if mode > 1 || (mode == 1 && n > t.LevelStart())
                then Saved(t, signs, mode, n + 1)[t.trail[n].v := t.trail[n].neg]
            else Saved(t, signs, mode, n + 1)
  {
    assert t.Val(t.trail[n]) == True;
    var a, b := Saved(t, signs, mode, n), Saved(t, signs, mode, n + 1);
    forall v | 0 <= v < |signs| && v != t.trail[n].v ensures a[v] == b[v] {
      if t.Assigned(v) { assert t.trail[t.Pos(v)] == t.TrueLit(v); }
    }
  }

  // Variables of the remaining levels keep everything, the others lose their value.
  lemma CancelSame(t: TrailState, level: nat, v: Var)
    requires TrailOK(t) && level < |t.lim|
    ensures t.lim[level] <= |t.trail|
    ensures Cancelled(t, level).Assigned(v) <==> t.Assigned(v) && t.Lev(v) <= level
    ensures Cancelled(t, level).Assigned(v) ==> Cancelled(t, level).Same(t, v) && t.Pos(v) < t.lim[level]
  {
    var u := Cancelled(t, level);
    if t.Assigned(v) { assert LevelOK(t, v); }
  }

  lemma CancelVal(t: TrailState, level: nat, p: Lit)
    requires TrailOK(t) && level < |t.lim|
    ensures t.lim[level] <= |t.trail|
    ensures Cancelled(t, level).Val(p) == if t.Val(p) != Undef && t.Lev(p.v) <= level then t.Val(p) else Undef
  {
    CancelSame(t, level, p.v);
  }

  lemma CancelTrail(t: TrailState, level: nat)
    requires TrailOK(t) && level < |t.lim|
    ensures t.lim[level] <= |t.trail| && TrailOK(Cancelled(t, level))
  {
    var u := Cancelled(t, level);
    forall v | u.Assigned(v) ensures u.Pos(v) < |u.trail| && u.trail[u.Pos(v)] == u.TrueLit(v) && LevelOK(u, v) {
      CancelSame(t, level, v);
      assert LevelOK(t, v);
    }
    forall i | 0 <= i < |u.trail| ensures u.Val(u.trail[i]) == True && u.Pos(u.trail[i].v) == i {
      assert t.Val(t.trail[i]) == True;
      assert t.Assigned(t.trail[i].v) && LevelOK(t, t.trail[i].v);
      CancelVal(t, level, t.trail[i]);
    }
  }

  lemma CancelReasons(mem: Memory, t: TrailState, level: nat)
    requires TrailOK(t) && ReasonsOK(mem, t) && level < |t.lim|
    ensures t.lim[level] <= |t.trail| && ReasonsOK(mem, Cancelled(t, level))
  {
    var u := Cancelled(t, level);
    forall v | u.Assigned(v) ensures ReasonOK(mem, u, v) {
      CancelSame(t, level, v);
      assert ReasonOK(mem, t, v);
      if t.Why(v) != CREF_UNDEF {
        var c := mem[t.Why(v)].lits;
        forall k | 1 <= k < |c| ensures u.Val(c[k]) == False && u.Pos(c[k].v) < u.Pos(v) {
          assert t.Val(c[k]) == False;
          LevelMono(t, c[k].v, v);
          CancelVal(t, level, c[k]);
        }
      }
    }
  }

  /** Undoing levels keeps what was propagated below them. */
  lemma CancelProp(mem: Memory, t: TrailState, level: nat, limit: nat)
    requires TrailOK(t) && level < |t.lim| && t.lim[level] <= limit && PropOK(mem, t, limit)
    ensures t.lim[level] <= |t.trail| && PropOK(mem, Cancelled(t, level), t.lim[level])
  {
    var u := Cancelled(t, level);
    forall cr | Live(mem, cr) ensures ClauseProp(u, mem[cr].lits, t.lim[level]) {
      var c := mem[cr].lits;
      assert ClauseProp(t, c, limit);
      if |c| >= 2 {
        CancelWatchProp(t, level, limit, c, c[0]);
        CancelWatchProp(t, level, limit, c, c[1]);
      }
    }
  }

  lemma CancelWatchProp(t: TrailState, level: nat, limit: nat, c: seq<Lit>, q: Lit)
    requires TrailOK(t) && level < |t.lim| && t.lim[level] <= limit && WatchProp(t, c, q, limit)
    ensures t.lim[level] <= |t.trail| && WatchProp(Cancelled(t, level), c, q, t.lim[level])
  {
    var u := Cancelled(t, level);
    CancelVal(t, level, q);
    if u.Val(q) == False {
      CancelSame(t, level, q.v);
      var p :| p in c && t.Val(p) == True && t.Lev(p.v) <= t.Lev(q.v);
      CancelVal(t, level, p);
      assert u.Lev(p.v) <= u.Lev(q.v);
    }
  }

  lemma CancelStart(t: TrailState, level: nat)
    requires TrailOK(t) && level < |t.lim|
    ensures t.lim[level] <= |t.trail| && Cancelled(t, level).LevelStart() <= t.lim[level]
  {
  }

  lemma CancelSound(F: Formula, mem: Memory, t: TrailState, level: nat)
    requires TrailOK(t) && level < |t.lim| && Sound(F, mem, t)
    ensures t.lim[level] <= |t.trail| && Sound(F, mem, Cancelled(t, level))
  {
    var u := Cancelled(t, level);
    forall v | u.Assigned(v) && u.Lev(v) == 0 && u.Why(v) == CREF_UNDEF ensures Implied(F, [u.TrueLit(v)]) {
      CancelSame(t, level, v);
    }
  }

  // ---------- adding a clause ----------

  lemma AddReasons(mem: Memory, t: TrailState, cr: CRef, d: Clause)
    requires ReasonsOK(mem, t) && cr !in mem
    ensures ReasonsOK(mem[cr := d], t)
  {
    forall v | t.Assigned(v) ensures ReasonOK(mem[cr := d], t, v) {
      assert ReasonOK(mem, t, v);
    }
  }

  function Attached(occs: map<Lit, seq<Watcher>>, cr: CRef, c: seq<Lit>): map<Lit, seq<Watcher>>
    requires |c| >= 2 && Neg(c[0]) in occs && Neg(c[1]) in occs
  {
    var occs1 := occs[Neg(c[0]) := occs[Neg(c[0])] + [Watcher(cr, c[1])]];
    occs1[Neg(c[1]) := occs1[Neg(c[1])] + [Watcher(cr, c[0])]]
  }

  lemma FreshList(mem: Memory, ws: seq<Watcher>, l: Lit, dirty: bool, cr: CRef)
    requires ListOK(mem, ws, l, dirty) && cr !in mem
    ensures !In(ws, cr)
  {
    forall i | 0 <= i < |ws| ensures ws[i].cref != cr {
      assert WatcherOK(mem, ws[i], l, dirty);
    }
  }

  lemma AttachWatch(mem: Memory, occs: map<Lit, seq<Watcher>>, dirty: set<Lit>, cr: CRef, d: Clause, n: nat)
    requires WatchOK(mem, occs, dirty) && OccKeys(occs, n) && cr !in mem && ClauseOK(d.lits, n) && d.mark == 0
    ensures Neg(d.lits[0]) in occs && Neg(d.lits[1]) in occs
    ensures WatchOK(mem[cr := d], Attached(occs, cr, d.lits), dirty)
  {
    var c := d.lits;
    var p, q := Neg(c[0]), Neg(c[1]);
    assert p != q;
    var mem' := mem[cr := d];
    var occs' := Attached(occs, cr, c);
    var w0, w1 := Watcher(cr, c[1]), Watcher(cr, c[0]);
    forall l | l in occs' ensures ListOK(mem', occs'[l], l, l in dirty) {
      assert ListOK(mem, occs[l], l, l in dirty);
      FreshList(mem, occs[l], l, l in dirty, cr);
      ReplaceList(mem, occs[l], l, l in dirty, cr, d);
      if l == p {
        PushList(mem', occs[p], w0, p, p in dirty);
      } else if l == q {
        PushList(mem', occs[q], w1, q, q in dirty);
      }
    }
    forall x | Live(mem', x) ensures Watched(mem'[x].lits, x, occs') {
      PushIn(occs[p], w0, x);
      PushIn(occs[q], w1, x);
      if x != cr {
        assert Live(mem, x) && Watched(mem[x].lits, x, occs);
      }
    }
  }

  // ---------- deleting a clause ----------

  function Deleting(mem: Memory, cr: CRef): Memory
    requires cr in mem
  {
    mem[cr := mem[cr].(mark := 1)]
  }

  lemma DeleteWatch(mem: Memory, occs: map<Lit, seq<Watcher>>, dirty: set<Lit>, cr: CRef)
    requires WatchOK(mem, occs, dirty) && Live(mem, cr) && |mem[cr].lits| >= 2
    ensures WatchOK(Deleting(mem, cr), occs, dirty + {Neg(mem[cr].lits[0]), Neg(mem[cr].lits[1])})
  {
    var mem' := Deleting(mem, cr);
    var dirty' := dirty + {Neg(mem[cr].lits[0]), Neg(mem[cr].lits[1])};
    forall l | l in occs ensures ListOK(mem', occs[l], l, l in dirty') {
      assert ListOK(mem, occs[l], l, l in dirty);
      forall i | 0 <= i < |occs[l]| ensures WatcherOK(mem', occs[l][i], l, l in dirty') {
        assert WatcherOK(mem, occs[l][i], l, l in dirty);
        assert Neg(Neg(l)) == l;
      }
    }
    forall x | Live(mem', x) ensures Watched(mem'[x].lits, x, occs) {
      assert Live(mem, x);
    }
  }

  lemma DeleteDb(mem: Memory, n: nat, cr: CRef)
    requires DbOK(mem, n) && Live(mem, cr)
    ensures DbOK(Deleting(mem, cr), n)
  {
    var mem' := Deleting(mem, cr);
    forall x | Live(mem', x) ensures ClauseOK(mem'[x].lits, n) {
      assert Live(mem, x);
    }
  }

  lemma DeleteProp(mem: Memory, t: TrailState, limit: nat, cr: CRef)
    requires PropOK(mem, t, limit) && Live(mem, cr)
    ensures PropOK(Deleting(mem, cr), t, limit)
  {
    var mem' := Deleting(mem, cr);
    forall x | Live(mem', x) ensures ClauseProp(t, mem'[x].lits, limit) {
      assert Live(mem, x);
    }
  }

  // ---------- the formula that the problem clauses and the facts stand for ----------

  // A satisfies the problem clauses and the literals of level 0.
  ghost predicate SatDb(A: Model, mem: Memory, clauses: seq<CRef>, t: TrailState) {
    && (forall i :: 0 <= i < |clauses| && clauses[i] in mem ==> Sat(A, mem[clauses[i]].lits))
    && (forall v :: t.Assigned(v) && t.Lev(v) == 0 ==> Holds(A, t.TrueLit(v)))
  }

  // Some literal of c is true at level 0.
  ghost predicate FixedTrue(t: TrailState, c: seq<Lit>) {
    exists p :: p in c && t.Val(p) == True && t.Lev(p.v) == 0
  }

  ghost predicate Tautology(c: seq<Lit>) {
    exists p :: p in c && Neg(p) in c
  }

  predicate Within(d: seq<Lit>, c: seq<Lit>) {
    forall q :: q in d ==> q in c
  }

  // Some listed clause has literals of c only.
  ghost predicate Subsumed(mem: Memory, clauses: seq<CRef>, c: seq<Lit>) {
    exists i :: 0 <= i < |clauses| && clauses[i] in mem && Within(mem[clauses[i]].lits, c)
  }

  /** The clause c as it was added is a tautology, true at level 0, or subsumed by a problem clause. */
  ghost predicate Represented(mem: Memory, clauses: seq<CRef>, t: TrailState, c: seq<Lit>) {
    Tautology(c) || FixedTrue(t, c) || Subsumed(mem, clauses, c)
  }

  /** Every clause of the formula F is represented by the problem clauses and the facts. */
  ghost predicate Complete(F: Formula, mem: Memory, clauses: seq<CRef>, t: TrailState) {
    forall c :: c in F ==> Represented(mem, clauses, t, c)
  }

  lemma RepresentedSat(A: Model, mem: Memory, clauses: seq<CRef>, t: TrailState, c: seq<Lit>)
    requires SatDb(A, mem, clauses, t) && Represented(mem, clauses, t, c)
    ensures Sat(A, c)
  {
    if Tautology(c) {
      var p :| p in c && Neg(p) in c;
      assert Holds(A, p) || Holds(A, Neg(p));
    } else if FixedTrue(t, c) {
      var p :| p in c && t.Val(p) == True && t.Lev(p.v) == 0;
      assert t.Assigned(p.v) && t.TrueLit(p.v) == p;
    } else {
      var i :| 0 <= i < |clauses| && clauses[i] in mem && Within(mem[clauses[i]].lits, c);
      var q :| q in mem[clauses[i]].lits && Holds(A, q);
      assert q in c;
    }
  }

  /** So the problem clauses and the facts of level 0 imply the formula. */
  lemma CompleteImplies(F: Formula, mem: Memory, clauses: seq<CRef>, t: TrailState, A: Model)
    requires Complete(F, mem, clauses, t) && SatDb(A, mem, clauses, t)
    ensures Models(A, F)
  {
    forall c | c in F ensures Sat(A, c) {
      RepresentedSat(A, mem, clauses, t, c);
    }
  }

  // Facts of level 0 stay.
  ghost predicate FactsStay(t: TrailState, u: TrailState) {
    forall v :: t.Assigned(v) && t.Lev(v) == 0 ==> u.Assigned(v) && u.Lev(v) == 0 && u.TrueLit(v) == t.TrueLit(v)
  }

  lemma FixedStays(t: TrailState, u: TrailState, c: seq<Lit>)
    requires FactsStay(t, u) && FixedTrue(t, c)
    ensures FixedTrue(u, c)
  {
    var p :| p in c && t.Val(p) == True && t.Lev(p.v) == 0;
    assert t.Assigned(p.v) && u.Assigned(p.v) && u.Val(p) == True;
  }

  /** Nothing added is lost if facts stay and each problem clause does, or is true at level 0. */
  lemma CompleteStays(F: Formula, mem: Memory, clauses: seq<CRef>, t: TrailState, mem': Memory, clauses': seq<CRef>,
          u: TrailState)
    requires Complete(F, mem, clauses, t) && FactsStay(t, u)
    requires forall i :: 0 <= i < |clauses| && clauses[i] in mem ==>
        FixedTrue(u, mem[clauses[i]].lits) || Subsumed(mem', clauses', mem[clauses[i]].lits)
    ensures Complete(F, mem', clauses', u)
  {
    forall c | c in F ensures Represented(mem', clauses', u, c) {
      assert Represented(mem, clauses, t, c);
      if FixedTrue(t, c) {
        FixedStays(t, u, c);
      } else if Subsumed(mem, clauses, c) {
        var i :| 0 <= i < |clauses| && clauses[i] in mem && Within(mem[clauses[i]].lits, c);
        WiderRepresented(mem', clauses', u, mem[clauses[i]].lits, c);
      }
    }
  }

  lemma WiderRepresented(mem: Memory, clauses: seq<CRef>, t: TrailState, d: seq<Lit>, c: seq<Lit>)
    requires Within(d, c) && (FixedTrue(t, d) || Subsumed(mem, clauses, d))
    ensures FixedTrue(t, c) || Subsumed(mem, clauses, c)
  {
    if FixedTrue(t, d) {
      var p :| p in d && t.Val(p) == True && t.Lev(p.v) == 0;
      assert p in c;
    } else {
      var i :| 0 <= i < |clauses| && clauses[i] in mem && Within(mem[clauses[i]].lits, d);
      assert Within(mem[clauses[i]].lits, c);
    }
  }

  lemma SubsumedBy(mem: Memory, clauses: seq<CRef>, i: nat, c: seq<Lit>)
    requires i < |clauses| && clauses[i] in mem && Within(mem[clauses[i]].lits, c)
    ensures Subsumed(mem, clauses, c)
  {
  }

  // The same clauses under other assignments.
  lemma CompleteFacts(F: Formula, mem: Memory, clauses: seq<CRef>, t: TrailState, u: TrailState)
    requires Complete(F, mem, clauses, t) && FactsStay(t, u)
    ensures Complete(F, mem, clauses, u)
  {
    hide FactsStay;
    forall i | 0 <= i < |clauses| && clauses[i] in mem ensures Subsumed(mem, clauses, mem[clauses[i]].lits) {
      SubsumedBy(mem, clauses, i, mem[clauses[i]].lits);
    }
    CompleteStays(F, mem, clauses, t, mem, clauses, u);
  }

  lemma SameSat(A: Model, c: seq<Lit>, d: seq<Lit>)
    requires SameLits(c, d)
    ensures Sat(A, c) <==> Sat(A, d)
  {
  }

  lemma SameImplied(F: Formula, c: seq<Lit>, d: seq<Lit>)
    requires SameLits(c, d) && Implied(F, d)
    ensures Implied(F, c)
  {
    forall A | Models(A, F) ensures Sat(A, c) {
      SameSat(A, c, d);
    }
  }

  /** Propagation keeps both directions of the equivalence with F. */
  lemma PropagateSound(F: Formula, mem: Memory, t: TrailState, mem': Memory, t': TrailState)
    requires Sound(F, mem, t) && SameDb(mem', mem) && Derived(t', t)
    ensures Sound(F, mem', t')
  {
    forall cr | Live(mem', cr) ensures Implied(F, mem'[cr].lits) {
      assert SameClause(mem'[cr], mem[cr]);
      assert Live(mem, cr);
      SameImplied(F, mem'[cr].lits, mem[cr].lits);
    }
    forall v | t'.Assigned(v) && t'.Lev(v) == 0 && t'.Why(v) == CREF_UNDEF ensures Implied(F, [t'.TrueLit(v)]) {
      assert t.Assigned(v) && t'.Same(t, v);
    }
  }

  lemma PropagateComplete(F: Formula, mem: Memory, clauses: seq<CRef>, t: TrailState, mem': Memory, t': TrailState)
    requires Complete(F, mem, clauses, t) && SameDb(mem', mem) && Derived(t', t)
    ensures Complete(F, mem', clauses, t')
  {
    forall v | t.Assigned(v) && t.Lev(v) == 0 ensures t'.Same(t, v) {
    }
    forall i | 0 <= i < |clauses| && clauses[i] in mem ensures Subsumed(mem', clauses, mem[clauses[i]].lits) {
      var cr := clauses[i];
      assert cr in mem' && SameClause(mem'[cr], mem[cr]);
      SubsumedBy(mem', clauses, i, mem[cr].lits);
    }
    CompleteStays(F, mem, clauses, t, mem', clauses, t');
  }

  lemma CancelComplete(F: Formula, mem: Memory, clauses: seq<CRef>, t: TrailState, level: nat)
    requires TrailOK(t) && level < |t.lim| && Complete(F, mem, clauses, t)
    ensures t.lim[level] <= |t.trail| && Complete(F, mem, clauses, Cancelled(t, level))
  {
    hide Complete;
    var u := Cancelled(t, level);
    forall v | t.Assigned(v) && t.Lev(v) == 0
      ensures u.Assigned(v) && u.Lev(v) == 0 && u.TrueLit(v) == t.TrueLit(v)
    {
      CancelSame(t, level, v);
    }
    CompleteFacts(F, mem, clauses, t, u);
  }

  // ---------- new facts and learnt clauses ----------

  lemma EnqueueComplete(F: Formula, mem: Memory, clauses: seq<CRef>, t: TrailState, u: TrailState)
    requires Complete(F, mem, clauses, t) && u.Extends(t)
    ensures Complete(F, mem, clauses, u)
  {
    hide Complete;
    forall v | t.Assigned(v) && t.Lev(v) == 0 ensures u.Same(t, v) {
    }
    CompleteFacts(F, mem, clauses, t, u);
  }

  lemma FactSound(F: Formula, mem: Memory, clauses: seq<CRef>, t: TrailState, p: Lit)
    requires TrailOK(t) && p.v < |t.assigns| && t.Val(p) == Undef
    requires Sound(F, mem, t) && Complete(F, mem, clauses, t) && Implied(F, [p])
    ensures Sound(F, mem, Enqueued(t, p, CREF_UNDEF)) && Complete(F, mem, clauses, Enqueued(t, p, CREF_UNDEF))
  {
    var u := Enqueued(t, p, CREF_UNDEF);
    EnqueueTrail(t, p, CREF_UNDEF);
    forall v | u.Assigned(v) && u.Lev(v) == 0 && u.Why(v) == CREF_UNDEF ensures Implied(F, [u.TrueLit(v)]) {
      if v != p.v { assert t.Assigned(v) && u.Same(t, v); }
    }
    EnqueueComplete(F, mem, clauses, t, u);
  }

  // A clause that does not concern the problem list.
  lemma AddSound(F: Formula, mem: Memory, clauses: seq<CRef>, t: TrailState, cr: CRef, d: Clause)
    requires Sound(F, mem, t) && Complete(F, mem, clauses, t) && Implied(F, d.lits) && cr !in mem
    requires forall i :: 0 <= i < |clauses| ==> clauses[i] in mem
    ensures Sound(F, mem[cr := d], t) && Complete(F, mem[cr := d], clauses, t)
  {
    var mem' := mem[cr := d];
    forall x | Live(mem', x) ensures Implied(F, mem'[x].lits) {
      if x != cr { assert Live(mem, x); }
    }
    forall i | 0 <= i < |clauses| && clauses[i] in mem ensures Subsumed(mem', clauses, mem[clauses[i]].lits) {
      SubsumedBy(mem', clauses, i, mem[clauses[i]].lits);
    }
    CompleteStays(F, mem, clauses, t, mem', clauses, t);
  }

  lemma ReasonedSound(F: Formula, mem: Memory, clauses: seq<CRef>, t: TrailState, p: Lit, from: CRef)
    requires TrailOK(t) && p.v < |t.assigns| && t.Val(p) == Undef && from != CREF_UNDEF
    requires Sound(F, mem, t) && Complete(F, mem, clauses, t)
    ensures Sound(F, mem, Enqueued(t, p, from)) && Complete(F, mem, clauses, Enqueued(t, p, from))
  {
    var u := Enqueued(t, p, from);
    EnqueueTrail(t, p, from);
    forall v | u.Assigned(v) && u.Lev(v) == 0 && u.Why(v) == CREF_UNDEF ensures Implied(F, [u.TrueLit(v)]) {
      assert t.Assigned(v) && u.Same(t, v);
    }
    EnqueueComplete(F, mem, clauses, t, u);
  }

  /** Learning c at its asserting level keeps the trail invariants, both directions of the
      equivalence with F, and complete propagation. */
  lemma LearnTrail(F: Formula, mem: Memory, clauses: seq<CRef>, t: TrailState, limit: nat, cr: CRef, c: seq<Lit>)
    requires TrailOK(t) && ReasonsOK(mem, t) && DbOK(mem, |t.assigns|) && PropOK(mem, t, limit) && limit <= |t.trail|
    requires Sound(F, mem, t) && Complete(F, mem, clauses, t) && Implied(F, c)
    requires cr !in mem && cr != CREF_UNDEF && forall i :: 0 <= i < |clauses| ==> clauses[i] in mem
    requires ClauseOK(c, |t.assigns|) && t.Val(c[0]) == Undef && t.Lev(c[1].v) == t.DL()
    requires forall i :: 1 <= i < |c| ==> t.Val(c[i]) == False
    ensures var mem' := mem[cr := Clause(c, true, 0)];
            var u := Enqueued(t, c[0], cr);
            && TrailOK(u) && ReasonsOK(mem', u) && DbOK(mem', |u.assigns|) && PropOK(mem', u, limit)
            && Sound(F, mem', u) && Complete(F, mem', clauses, u)
  {
    hide ReasonsOK, DbOK, PropOK, Sound, Complete, Implied, Distinct, LevelOK, LimOK;
    var d := Clause(c, true, 0);
    var mem' := mem[cr := d];
    var u := Enqueued(t, c[0], cr);
    AddReasons(mem, t, cr, d);
    FalseIsEarlier(t, c);
    EnqueueTrail(t, c[0], cr);
    EnqueueReasons(mem', t, c[0], cr);
    ReplaceDb(mem, |t.assigns|, cr, d);
    ExtendProp(mem, t, u, limit);
    LearntProp(t, u, c, limit);
    ReplaceProp(mem, u, limit, cr, d);
    AddSound(F, mem, clauses, t, cr, d);
    ReasonedSound(F, mem', clauses, t, c[0], cr);
  }

  lemma LearntProp(t: TrailState, u: TrailState, c: seq<Lit>, limit: nat)
    requires |c| >= 2 && u.Extends(t) && u.Val(c[0]) == True && u.Lev(c[0].v) == t.DL()
    requires t.Val(c[1]) == False && t.Lev(c[1].v) == t.DL()
    ensures ClauseProp(u, c, limit)
  {
    ExtendVal(t, u, c[1]);
    assert c[0] in c;
    assert TrueBelow(u, c, t.DL());
  }

  lemma LearnWatches(mem: Memory, occs: map<Lit, seq<Watcher>>, dirty: set<Lit>, cr: CRef, c: seq<Lit>, n: nat)
    requires WatchOK(mem, occs, dirty) && OccKeys(occs, n) && cr !in mem && ClauseOK(c, n)
    ensures Neg(c[0]) in occs && Neg(c[1]) in occs && OccKeys(Attached(occs, cr, c), n)
    ensures forall b :: WatchOK(mem[cr := Clause(c, b, 0)], Attached(occs, cr, c), dirty)
  {
    forall b ensures WatchOK(mem[cr := Clause(c, b, 0)], Attached(occs, cr, c), dirty) {
      AttachWatch(mem, occs, dirty, cr, Clause(c, b, 0), n);
    }
  }

  // ---------- removing clauses ----------

  predicate Locked(t: TrailState, c: seq<Lit>, cr: CRef) {
    |c| >= 1 && t.Val(c[0]) == True && t.Why(c[0].v) == cr
  }

  // A removed clause that was a reason leaves no dangling reference.
  function Released(t: TrailState, c: seq<Lit>, cr: CRef): TrailState {
    if Locked(t, c, cr) && c[0].v < |t.vardata|
    then t.(vardata := t.vardata[c[0].v := VarData(CREF_UNDEF, t.vardata[c[0].v].level)])
    else t
  }

  // Only its first literal has a clause as reason.
  lemma ReasonLocked(mem: Memory, t: TrailState, cr: CRef, v: Var)
    requires TrailOK(t) && ReasonsOK(mem, t) && Live(mem, cr) && cr != CREF_UNDEF && t.Assigned(v) && t.Why(v) == cr
    ensures Locked(t, mem[cr].lits, cr) && v == mem[cr].lits[0].v
  {
    assert ReasonOK(mem, t, v);
  }

  lemma ReleasedTrail(t: TrailState, c: seq<Lit>, cr: CRef)
    requires TrailOK(t)
    ensures TrailOK(Released(t, c, cr))
    ensures forall v :: Released(t, c, cr).Lev(v) == t.Lev(v)
  {
    var u := Released(t, c, cr);
    forall v | u.Assigned(v) ensures u.Pos(v) < |u.trail| && u.trail[u.Pos(v)] == u.TrueLit(v) && LevelOK(u, v) {
      assert t.Assigned(v) && LevelOK(t, v);
    }
    forall i | 0 <= i < |u.trail| ensures u.Val(u.trail[i]) == True && u.Pos(u.trail[i].v) == i {
      assert t.Val(t.trail[i]) == True;
    }
  }

  lemma ReleasedReasons(mem: Memory, t: TrailState, cr: CRef)
    requires TrailOK(t) && ReasonsOK(mem, t) && Live(mem, cr) && cr != CREF_UNDEF
    requires Locked(t, mem[cr].lits, cr) ==> |t.lim| == 0
    ensures ReasonsOK(Deleting(mem, cr), Released(t, mem[cr].lits, cr))
  {
    var c := mem[cr].lits;
    var u := Released(t, c, cr);
    forall v | u.Assigned(v) ensures ReasonOK(Deleting(mem, cr), u, v) {
      assert t.Assigned(v) && ReasonOK(mem, t, v) && LevelOK(t, v);
      if t.Why(v) == cr {
        ReasonLocked(mem, t, cr, v);
      } else if t.Why(v) != CREF_UNDEF {
        var d := mem[t.Why(v)].lits;
        assert Forced(u, d, u.TrueLit(v), u.Pos(v));
      }
    }
  }

  lemma SameLevelsProp(mem: Memory, t: TrailState, u: TrailState, limit: nat)
    requires PropOK(mem, t, limit) && u.assigns == t.assigns && u.pos == t.pos && forall v :: u.Lev(v) == t.Lev(v)
    ensures PropOK(mem, u, limit)
  {
    forall cr | Live(mem, cr) ensures ClauseProp(u, mem[cr].lits, limit) {
      var c := mem[cr].lits;
      assert ClauseProp(t, c, limit);
      forall lev | TrueBelow(t, c, lev) ensures TrueBelow(u, c, lev) {
        var p :| p in c && t.Val(p) == True && t.Lev(p.v) <= lev;
        assert u.Val(p) == True;
      }
    }
  }

  lemma ReleasedSound(F: Formula, mem: Memory, t: TrailState, cr: CRef)
    requires TrailOK(t) && ReasonsOK(mem, t) && Sound(F, mem, t) && Live(mem, cr)
    ensures Sound(F, Deleting(mem, cr), Released(t, mem[cr].lits, cr))
  {
    var mem' := Deleting(mem, cr);
    var c := mem[cr].lits;
    var u := Released(t, c, cr);
    forall x | Live(mem', x) ensures Implied(F, mem'[x].lits) {
      assert Live(mem, x);
    }
    forall v | u.Assigned(v) && u.Lev(v) == 0 && u.Why(v) == CREF_UNDEF ensures Implied(F, [u.TrueLit(v)]) {
      assert t.Assigned(v);
      Level0Implied(F, mem, t, v);
    }
  }

  lemma ReleasedFacts(t: TrailState, c: seq<Lit>, cr: CRef)
    ensures FactsStay(t, Released(t, c, cr))
  {
  }

  // A problem clause with a true literal of level 0 is not missed.
  lemma ReleasedComplete(F: Formula, mem: Memory, clauses: seq<CRef>, t: TrailState, cr: CRef, j: nat)
    requires Complete(F, mem, clauses, t) && Live(mem, cr) && j < |clauses| && clauses[j] == cr
    requires FixedTrue(t, mem[cr].lits)
    ensures Complete(F, Deleting(mem, cr), Without(clauses, j), Released(t, mem[cr].lits, cr))
  {
    hide FixedTrue, Released, Subsumed;
    var mem', rest := Deleting(mem, cr), Without(clauses, j);
    var u := Released(t, mem[cr].lits, cr);
    ReleasedFacts(t, mem[cr].lits, cr);
    forall i | 0 <= i < |clauses| && clauses[i] in mem
      ensures FixedTrue(u, mem[clauses[i]].lits) || Subsumed(mem', rest, mem[clauses[i]].lits)
    {
      if i == j {
        FixedStays(t, u, mem[cr].lits);
      } else {
        SubsumedBy(mem', rest, if i < j then i else i - 1, mem[clauses[i]].lits);
      }
    }
    CompleteStays(F, mem, clauses, t, mem', rest, u);
  }

  lemma ReleasedOther(F: Formula, mem: Memory, clauses: seq<CRef>, t: TrailState, cr: CRef)
    requires Complete(F, mem, clauses, t) && Live(mem, cr)
    ensures Complete(F, Deleting(mem, cr), clauses, Released(t, mem[cr].lits, cr))
  {
    hide FixedTrue, Released, Subsumed;
    var mem', u := Deleting(mem, cr), Released(t, mem[cr].lits, cr);
    ReleasedFacts(t, mem[cr].lits, cr);
    forall i | 0 <= i < |clauses| && clauses[i] in mem ensures Subsumed(mem', clauses, mem[clauses[i]].lits) {
      SubsumedBy(mem', clauses, i, mem[clauses[i]].lits);
    }
    CompleteStays(F, mem, clauses, t, mem', clauses, u);
  }
}
