/** Adding a clause at level 0: which literals are kept, and why the database stays equivalent to
    the clauses added so far. */
module SatAdd {
  import opened SatTypes
  import opened SatCore
  import opened SatPropagate
  import opened SatLearn
  import opened SatSteps
  import opened SatDatabase
  import opened ClauseAllocators
  import opened Sorting

  function LitOrder(): (Lit, Lit) -> bool {
    (x, y) => ToInt(x) < ToInt(y)
  }

  lemma LitWeak(S: multiset<Lit>)
    ensures StrictWeak(LitOrder(), S)
  {
  }

  method SortLits(ps: seq<Lit>) returns (a: array<Lit>)
    ensures fresh(a) && multiset(a[..]) == multiset(ps) && Sorted(LitOrder(), a[..])
  {
    hide StrictWeak, LitOrder;
    a := new Lit[|ps|](i requires 0 <= i < |ps| => ps[i]);
    assert a[..] == ps;
    assert a[0..a.Length] == a[..];
    LitWeak(multiset(a[0..a.Length]));
    Sort(a, 0, a.Length, LitOrder());
    assert a[0..a.Length] == a[..];
  }

  /** out holds the unassigned literals of ps, each variable once; the others are false. */
  ghost predicate Filtered(t: TrailState, ps: seq<Lit>, out: seq<Lit>) {
    && (forall i :: 0 <= i < |out| ==> out[i] in ps && t.Val(out[i]) == Undef)
    && (forall p :: p in ps ==> p in out || t.Val(p) == False)
    && (forall i, j :: 0 <= i < j < |out| ==> out[i].v != out[j].v)
  }

  // A true literal or a complementary pair makes a clause superfluous.
  ghost predicate Superfluous(t: TrailState, ps: seq<Lit>) {
    (exists p :: p in ps && t.Val(p) == True) || (exists p :: p in ps && Neg(p) in ps)
  }

  // Two literals of different variables are open.
  ghost predicate TwoOpen(t: TrailState, ps: seq<Lit>) {
    exists p, q :: p in ps && q in ps && p.v != q.v && t.Val(p) == Undef && t.Val(q) == Undef
  }

  lemma SuperfluousUnit(t: TrailState, ps: seq<Lit>)
    requires Superfluous(t, ps)
    ensures |ps| == 1 ==> t.Val(ps[0]) == True
  {
  }

  lemma FilteredUnit(t: TrailState, ps: seq<Lit>, c: seq<Lit>)
    requires Filtered(t, ps, c)
    ensures |c| >= 2 ==> |ps| >= 2
    ensures TwoOpen(t, ps) ==> |c| >= 2
    ensures |ps| == 1 && c != [] ==> c[0] == ps[0]
  {
    if |c| >= 2 { assert c[0] in ps && c[1] in ps && c[0].v != c[1].v; }
  }

  // A fact stays while its consequences are drawn.
  lemma FactStays(t: TrailState, p: Lit, u: TrailState)
    requires TrailOK(t) && p.v < |t.assigns| && t.Val(p) == Undef && Derived(u, Enqueued(t, p, CREF_UNDEF))
    ensures u.Extends(t) && u.Val(p) == True
  {
    EnqueueTrail(t, p, CREF_UNDEF);
    ExtendTrans(t, Enqueued(t, p, CREF_UNDEF), u);
    ExtendVal(Enqueued(t, p, CREF_UNDEF), u, p);
  }

  // out is the result for the sorted literals below i.
  ghost predicate Filtering(t: TrailState, s: seq<Lit>, i: nat, out: seq<Lit>) {
    i <= |s| && Filtered(t, s[..i], out) && forall k, l :: 0 <= k < l < |out| ==> ToInt(out[k]) < ToInt(out[l])
  }

  lemma StartFilter(t: TrailState, s: seq<Lit>)
    ensures Filtering(t, s, 0, [])
  {
    assert s[..0] == [];
  }

  lemma SortedRange(ps: seq<Lit>, s: seq<Lit>, n: nat)
    requires multiset(s) == multiset(ps) && InRange(ps, n)
    ensures InRange(s, n) && |s| == |ps|
  {
    assert |multiset(s)| == |multiset(ps)|;
    forall i | 0 <= i < |s| ensures s[i].v < n {
      assert s[i] in multiset(s);
      assert s[i] in ps;
    }
  }

  lemma FilterSkip(t: TrailState, s: seq<Lit>, i: nat, out: seq<Lit>)
    requires Filtering(t, s, i, out) && i < |s| && (t.Val(s[i]) == False || s[i] in out)
    ensures Filtering(t, s, i + 1, out)
  {
    assert s[..i + 1] == s[..i] + [s[i]];
  }

  lemma FilterKeep(t: TrailState, s: seq<Lit>, i: nat, out: seq<Lit>)
    requires Filtering(t, s, i, out) && i < |s| && Sorted(LitOrder(), s) && t.Val(s[i]) == Undef
    requires out != [] ==> s[i] != out[|out| - 1] && s[i] != Neg(out[|out| - 1])
    ensures Filtering(t, s, i + 1, out + [s[i]])
  {
    var q, out' := s[i], out + [s[i]];
    assert s[..i + 1] == s[..i] + [q];
    forall k | 0 <= k < |out| ensures ToInt(out[k]) < ToInt(q) && out[k].v != q.v {
      var last := out[|out| - 1];
      assert last in s[..i];
      var m :| 0 <= m < i && s[m] == last;
      assert !LitOrder()(s[i], s[m]);
      assert ToInt(last) <= ToInt(q);
      assert k < |out| - 1 ==> ToInt(out[k]) < ToInt(last);
      SameVar(last, q);
    }
    forall p | p in s[..i + 1] ensures p in out' || t.Val(p) == False {
      if p in s[..i] { assert p in out || t.Val(p) == False; }
    }
  }

  // Of the two literals of a variable the positive one comes first.
  lemma SameVar(p: Lit, q: Lit)
    requires ToInt(p) <= ToInt(q) && p != q && q != Neg(p)
    ensures p.v < q.v
  {
  }

  lemma FilterTrue(t: TrailState, ps: seq<Lit>, s: seq<Lit>, i: nat)
    requires i < |s| && multiset(s) == multiset(ps) && t.Val(s[i]) == True
    ensures Superfluous(t, ps)
  {
    assert s[i] in multiset(s);
  }

  lemma FilterPair(t: TrailState, ps: seq<Lit>, s: seq<Lit>, i: nat, out: seq<Lit>)
    requires i < |s| && multiset(s) == multiset(ps) && Filtering(t, s, i, out)
    requires out != [] && s[i] == Neg(out[|out| - 1])
    ensures Superfluous(t, ps)
  {
    var p := out[|out| - 1];
    assert p in s[..i];
    assert p in multiset(s) && s[i] in multiset(s);
    assert Neg(p) in ps && p in ps;
  }

  lemma FilterEnd(t: TrailState, ps: seq<Lit>, s: seq<Lit>, out: seq<Lit>)
    requires multiset(s) == multiset(ps) && Filtering(t, s, |s|, out)
    ensures Filtered(t, ps, out)
  {
    assert s[..|s|] == s;
    forall p ensures p in s <==> p in ps {
      assert p in multiset(s) <==> p in multiset(ps);
    }
  }

  // ---------- the formula grows ----------

  lemma ImpliedMore(F: Formula, c: seq<Lit>, d: seq<Lit>)
    requires Implied(F, d)
    ensures Implied(F + {c}, d)
  {
    forall A | Models(A, F + {c}) ensures Sat(A, d) {
      assert Models(A, F);
    }
  }

  lemma UnsatisfiableMore(F: Formula, c: seq<Lit>)
    requires Unsatisfiable(F)
    ensures Unsatisfiable(F + {c})
  {
    forall A ensures !Models(A, F + {c}) {
      if Models(A, F + {c}) { assert Models(A, F); }
    }
  }

  lemma SoundMore(F: Formula, c: seq<Lit>, mem: Memory, t: TrailState)
    requires Sound(F, mem, t)
    ensures Sound(F + {c}, mem, t)
  {
    forall cr | Live(mem, cr) ensures Implied(F + {c}, mem[cr].lits) {
      ImpliedMore(F, c, mem[cr].lits);
    }
    forall v | t.Assigned(v) && t.Lev(v) == 0 && t.Why(v) == CREF_UNDEF ensures Implied(F + {c}, [t.TrueLit(v)]) {
      ImpliedMore(F, c, [t.TrueLit(v)]);
    }
  }

  lemma CompleteMore(F: Formula, c: seq<Lit>, mem: Memory, clauses: seq<CRef>, t: TrailState)
    requires Complete(F, mem, clauses, t) && Represented(mem, clauses, t, c)
    ensures Complete(F + {c}, mem, clauses, t)
  {
  }

  /** At level 0, dropping false literals keeps what the clause says. */
  lemma FilteredImplied(F: Formula, c: seq<Lit>, mem: Memory, t: TrailState, out: seq<Lit>)
    requires TrailOK(t) && ReasonsOK(mem, t) && Sound(F, mem, t) && |t.lim| == 0 && Filtered(t, c, out)
    ensures Implied(F + {c}, out)
  {
    forall A | Models(A, F + {c}) ensures Sat(A, out) {
      assert Models(A, F);
      assert Sat(A, c);
      var p :| p in c && Holds(A, p);
      if p !in out {
        assert t.Assigned(p.v) && LevelOK(t, p.v);
        Level0Implied(F, mem, t, p.v);
        ImpliedUnit(F, t.TrueLit(p.v));
      }
    }
  }

  /** A superfluous clause changes nothing. */
  lemma SuperfluousState(F: Formula, mem: Memory, occs: map<Lit, seq<Watcher>>, dirty: set<Lit>, t: TrailState,
                         clauses: seq<CRef>, learnts: seq<CRef>, sz: nat, wasted: nat, limit: nat, c: seq<Lit>)
    requires StateOK(F, mem, occs, dirty, t, clauses, learnts, sz, wasted, limit) && |t.lim| == 0 && Superfluous(t, c)
    ensures StateOK(F + {c}, mem, occs, dirty, t, clauses, learnts, sz, wasted, limit)
  {
    hide WatchOK, PropOK, ReasonsOK, DbOK, RefsOK, MarksOK, Balanced, Sound, Complete;
    SoundMore(F, c, mem, t);
    SuperfluousRepresented(mem, clauses, t, c);
    CompleteMore(F, c, mem, clauses, t);
  }

  lemma SuperfluousRepresented(mem: Memory, clauses: seq<CRef>, t: TrailState, c: seq<Lit>)
    requires TrailOK(t) && |t.lim| == 0 && Superfluous(t, c)
    ensures Represented(mem, clauses, t, c)
  {
    if p :| p in c && t.Val(p) == True {
      assert t.Assigned(p.v) && LevelOK(t, p.v);
    }
  }

  /** Nothing left of the clause: the formula is contradictory. */
  lemma EmptyRefuted(F: Formula, mem: Memory, t: TrailState, c: seq<Lit>)
    requires TrailOK(t) && ReasonsOK(mem, t) && Sound(F, mem, t) && |t.lim| == 0 && Filtered(t, c, [])
    ensures Unsatisfiable(F + {c})
  {
    SoundMore(F, c, mem, t);
    forall A | Models(A, F + {c}) ensures Sat(A, c) {
    }
    RootRefuted(F + {c}, mem, t, c);
  }

  /** One literal left: a new fact. */
  lemma UnitState(F: Formula, mem: Memory, occs: map<Lit, seq<Watcher>>, dirty: set<Lit>, t: TrailState,
                  clauses: seq<CRef>, learnts: seq<CRef>, sz: nat, wasted: nat, limit: nat, c: seq<Lit>, p: Lit)
    requires StateOK(F, mem, occs, dirty, t, clauses, learnts, sz, wasted, limit) && |t.lim| == 0 && limit <= |t.trail|
    requires Filtered(t, c, [p]) && p.v < |t.assigns|
    ensures t.Val(p) == Undef && |t.vardata| == |t.pos| == |t.assigns|
    ensures StateOK(F + {c}, mem, occs, dirty, Enqueued(t, p, CREF_UNDEF), clauses, learnts, sz, wasted, limit)
  {
    hide WatchOK, PropOK, ReasonsOK, DbOK, RefsOK, MarksOK, Balanced, Sound, Complete, Filtered, Implied, LevelOK;
    UnitFacts(t, c, p);
    var u := Enqueued(t, p, CREF_UNDEF);
    EnqueueTrail(t, p, CREF_UNDEF);
    EnqueueReasons(mem, t, p, CREF_UNDEF);
    ExtendProp(mem, t, u, limit);
    FilteredImplied(F, c, mem, t, [p]);
    UnitSound(F, c, mem, clauses, t, p);
  }

  lemma UnitFacts(t: TrailState, c: seq<Lit>, p: Lit)
    requires Filtered(t, c, [p])
    ensures t.Val(p) == Undef && p in c
  {
    assert [p][0] in c;
  }

  lemma UnitSound(F: Formula, c: seq<Lit>, mem: Memory, clauses: seq<CRef>, t: TrailState, p: Lit)
    requires TrailOK(t) && |t.lim| == 0 && p.v < |t.assigns| && t.Val(p) == Undef && p in c && Implied(F + {c}, [p])
    requires Sound(F, mem, t) && Complete(F, mem, clauses, t)
    ensures |t.vardata| == |t.pos| == |t.assigns|
    ensures Sound(F + {c}, mem, Enqueued(t, p, CREF_UNDEF))
        && Complete(F + {c}, mem, clauses, Enqueued(t, p, CREF_UNDEF))
  {
    var u := Enqueued(t, p, CREF_UNDEF);
    EnqueueTrail(t, p, CREF_UNDEF);
    SoundMore(F, c, mem, t);
    forall v | u.Assigned(v) && u.Lev(v) == 0 && u.Why(v) == CREF_UNDEF ensures Implied(F + {c}, [u.TrueLit(v)]) {
      if v != p.v { assert t.Assigned(v) && u.Same(t, v); }
    }
    EnqueueComplete(F, mem, clauses, t, u);
    assert FixedTrue(u, c) by { assert u.Val(p) == True && u.Lev(p.v) == 0; }
    CompleteMore(F, c, mem, clauses, u);
  }

  /** Two literals or more left: a new problem clause. */
  lemma ClauseState(F: Formula, mem: Memory, occs: map<Lit, seq<Watcher>>, dirty: set<Lit>, t: TrailState,
                    clauses: seq<CRef>, learnts: seq<CRef>, sz: nat, wasted: nat, limit: nat, c: seq<Lit>,
                    out: seq<Lit>)
    requires StateOK(F, mem, occs, dirty, t, clauses, learnts, sz, wasted, limit) && |t.lim| == 0
    requires Filtered(t, c, out) && |out| >= 2 && InRange(out, |t.assigns|) && sz !in mem
    ensures Neg(out[0]) in occs && Neg(out[1]) in occs
    ensures var d := Clause(out, false, 0);
            StateOK(F + {c}, mem[sz := d], Attached(occs, sz, out), dirty, t,
                    clauses + [sz], learnts, sz + Words(d), wasted, limit)
  {
    hide WatchOK, PropOK, ReasonsOK, DbOK, TrailOK, RefsOK, MarksOK, Sound, Complete, OccKeys, Filtered, InRange;
    var d := Clause(out, false, 0);
    FilteredOK(t, c, out, limit);
    LearnWatches(mem, occs, dirty, sz, out, |t.assigns|);
    AddReasons(mem, t, sz, d);
    ReplaceDb(mem, |t.assigns|, sz, d);
    ReplaceProp(mem, t, limit, sz, d);
    AddRefs(mem, clauses, learnts, sz, d);
    AddMarks(mem, sz, d);
    FilteredImplied(F, c, mem, t, out);
    AddProblem(F, c, mem, clauses, t, sz, out);
  }

  lemma AddMarks(mem: Memory, cr: CRef, d: Clause)
    requires MarksOK(mem) && d.mark == 0
    ensures MarksOK(mem[cr := d])
  {
  }

  lemma FilteredOK(t: TrailState, c: seq<Lit>, out: seq<Lit>, limit: nat)
    requires Filtered(t, c, out) && |out| >= 2 && InRange(out, |t.assigns|)
    ensures ClauseOK(out, |t.assigns|) && ClauseProp(t, out, limit)
  {
  }

  lemma AddProblem(F: Formula, c: seq<Lit>, mem: Memory, clauses: seq<CRef>, t: TrailState, cr: CRef, out: seq<Lit>)
    requires Sound(F, mem, t) && Complete(F, mem, clauses, t) && Implied(F + {c}, out) && cr !in mem
    requires Filtered(t, c, out)
    ensures Sound(F + {c}, mem[cr := Clause(out, false, 0)], t)
    ensures Complete(F + {c}, mem[cr := Clause(out, false, 0)], clauses + [cr], t)
  {
    var mem', clauses' := mem[cr := Clause(out, false, 0)], clauses + [cr];
    SoundMore(F, c, mem, t);
    forall x | Live(mem', x) ensures Implied(F + {c}, mem'[x].lits) {
      if x != cr { assert Live(mem, x); }
    }
    forall i | 0 <= i < |clauses| && clauses[i] in mem ensures Subsumed(mem', clauses', mem[clauses[i]].lits) {
      SubsumedBy(mem', clauses', i, mem[clauses[i]].lits);
    }
    CompleteStays(F, mem, clauses, t, mem', clauses', t);
    FilteredWithin(t, c, out);
    SubsumedBy(mem', clauses', |clauses|, c);
    CompleteMore(F, c, mem', clauses', t);
  }

  lemma FilteredWithin(t: TrailState, c: seq<Lit>, out: seq<Lit>)
    requires Filtered(t, c, out)
    ensures Within(out, c)
  {
  }

  // ---------- a new variable ----------

  function Grown(t: TrailState): TrailState {
    TrailState(t.assigns + [Undef], t.vardata + [VarData(CREF_UNDEF, 0)], t.trail, t.lim, t.pos + [0])
  }

  function GrownOccs(occs: map<Lit, seq<Watcher>>, n: nat): map<Lit, seq<Watcher>> {
    occs[Lit(n, false) := []][Lit(n, true) := []]
  }

  // Nothing is known of the new variable, and nothing changes for the others.
  lemma GrownSame(t: TrailState)
    requires |t.vardata| == |t.pos| == |t.assigns|
    ensures forall v :: Grown(t).Assigned(v) <==> t.Assigned(v)
    ensures forall p :: Grown(t).Val(p) == t.Val(p)
    ensures forall v :: Grown(t).Lev(v) == t.Lev(v) && Grown(t).Why(v) == t.Why(v) && Grown(t).Pos(v) == t.Pos(v)
    ensures forall v :: Grown(t).TrueLit(v) == t.TrueLit(v)
  {
  }

  lemma GrownTrail(mem: Memory, t: TrailState)
    requires TrailOK(t) && ReasonsOK(mem, t)
    ensures TrailOK(Grown(t)) && ReasonsOK(mem, Grown(t))
  {
    var u := Grown(t);
    GrownSame(t);
    forall i | 0 <= i < |u.trail| ensures u.Val(u.trail[i]) == True && u.Pos(u.trail[i].v) == i {
      assert t.Val(t.trail[i]) == True;
    }
    forall v | u.Assigned(v) ensures u.Pos(v) < |u.trail| && u.trail[u.Pos(v)] == u.TrueLit(v) && LevelOK(u, v) {
      assert t.Assigned(v) && LevelOK(t, v);
    }
    forall v | u.Assigned(v) ensures ReasonOK(mem, u, v) {
      assert t.Assigned(v) && ReasonOK(mem, t, v);
      if t.Why(v) != CREF_UNDEF {
        var c := mem[t.Why(v)].lits;
        assert forall k :: 1 <= k < |c| ==> u.Val(c[k]) == t.Val(c[k]);
      }
    }
  }

  lemma GrownDb(mem: Memory, occs: map<Lit, seq<Watcher>>, dirty: set<Lit>, n: nat)
    requires DbOK(mem, n) && OccKeys(occs, n) && WatchOK(mem, occs, dirty)
    ensures DbOK(mem, n + 1) && OccKeys(GrownOccs(occs, n), n + 1) && WatchOK(mem, GrownOccs(occs, n), dirty)
  {
    forall cr | Live(mem, cr) ensures ClauseOK(mem[cr].lits, n + 1) {
      assert ClauseOK(mem[cr].lits, n);
    }
    var occs' := GrownOccs(occs, n);
    forall l | l in occs' ensures ListOK(mem, occs'[l], l, l in dirty) {
      if l.v < n { assert ListOK(mem, occs[l], l, l in dirty); }
    }
    forall cr | Live(mem, cr) ensures Watched(mem[cr].lits, cr, occs') {
      var c := mem[cr].lits;
      assert ClauseOK(c, n) && Watched(c, cr, occs);
      assert c[0].v < n && c[1].v < n;
    }
  }

  lemma GrownProp(mem: Memory, t: TrailState, limit: nat)
    requires |t.vardata| == |t.pos| == |t.assigns| && PropOK(mem, t, limit)
    ensures PropOK(mem, Grown(t), limit)
  {
    var u := Grown(t);
    GrownSame(t);
    forall cr | Live(mem, cr) ensures ClauseProp(u, mem[cr].lits, limit) {
      var c := mem[cr].lits;
      assert ClauseProp(t, c, limit);
      forall lev | TrueBelow(t, c, lev) ensures TrueBelow(u, c, lev) {
        var p :| p in c && t.Val(p) == True && t.Lev(p.v) <= lev;
        assert u.Val(p) == True;
      }
    }
  }

  lemma GrownSound(F: Formula, mem: Memory, clauses: seq<CRef>, t: TrailState)
    requires |t.vardata| == |t.pos| == |t.assigns| && Sound(F, mem, t) && Complete(F, mem, clauses, t)
    ensures Sound(F, mem, Grown(t)) && Complete(F, mem, clauses, Grown(t))
  {
    var u := Grown(t);
    GrownSame(t);
    forall v | u.Assigned(v) && u.Lev(v) == 0 && u.Why(v) == CREF_UNDEF ensures Implied(F, [u.TrueLit(v)]) {
      assert t.Assigned(v) && u.TrueLit(v) == t.TrueLit(v);
    }
    CompleteFacts(F, mem, clauses, t, u);
  }

  /** A new variable keeps all invariants. */
  lemma GrownState(F: Formula, mem: Memory, occs: map<Lit, seq<Watcher>>, dirty: set<Lit>, t: TrailState,
                   clauses: seq<CRef>, learnts: seq<CRef>, sz: nat, wasted: nat, limit: nat)
    requires StateOK(F, mem, occs, dirty, t, clauses, learnts, sz, wasted, limit)
    ensures StateOK(F, mem, GrownOccs(occs, |t.assigns|), dirty, Grown(t), clauses, learnts, sz, wasted, limit)
  {
    hide WatchOK, PropOK, ReasonsOK, DbOK, TrailOK, RefsOK, MarksOK, Balanced, Sound, Complete, OccKeys;
    TrailLens(t);
    GrownTrail(mem, t);
    GrownDb(mem, occs, dirty, |t.assigns|);
    GrownProp(mem, t, limit);
    GrownSound(F, mem, clauses, t);
  }

  // What is assigned at level 0 follows from the clauses.
  lemma AtRoot(F: Formula, mem: Memory, t: TrailState, clauses: seq<CRef>, learnts: seq<CRef>, sz: nat, wasted: nat,
          v: Var)
    requires TrailOK(t) && ReasonsOK(mem, t) && DatabaseOK(F, mem, clauses, learnts, t, sz, wasted)
    requires |t.lim| == 0 && t.Assigned(v)
    ensures Implied(F, [t.TrueLit(v)])
  {
    assert LevelOK(t, v);
    Level0Implied(F, mem, t, v);
  }

  // The four clauses over two variables.
  lemma AllPairsRefuted(F: Formula, x: Lit, y: Lit, x': Lit, y': Lit)
    requires x' == Neg(x) && y' == Neg(y) && {[x, y], [x, y'], [x', y], [x', y']} <= F
    ensures Unsatisfiable(F)
  {
    forall A ensures !Models(A, F) {
      var c := [if Holds(A, x) then x' else x, if Holds(A, y) then y' else y];
      assert c in F;
      assert !Sat(A, c);
    }
  }
}
