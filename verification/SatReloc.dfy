/** Copying garbage collection on values: when the live clauses have been copied one to one and
    every reference has been renamed, all invariants of the solver carry over. */
module SatReloc {
  import opened SetSizes
  import opened SatTypes
  import opened SatCore
  import opened SatPropagate
  import opened SatLearn
  import opened SatSteps
  import opened SatDatabase
  import opened ClauseAllocators
  import opened OccurrenceLists

  type Forward = map<CRef, CRef>

  /** fwd is a bijection from the live clauses of mem to all clauses of mem', keeping contents. */
  ghost predicate Moved(mem: Memory, fwd: Forward, mem': Memory) {
    && Relocating(mem, fwd, mem')
    && (forall cr :: cr in fwd <==> Live(mem, cr))
  }

  // The references of an occurrence list have been renamed.
  ghost predicate RenamedList(ws: seq<Watcher>, ws': seq<Watcher>, fwd: Forward) {
    && |ws'| == |ws|
    && forall i :: 0 <= i < |ws| ==> ws[i].cref in fwd && ws'[i] == Watcher(fwd[ws[i].cref], ws[i].blocker)
  }

  ghost predicate RenamedOccs(occs: map<Lit, seq<Watcher>>, occs': map<Lit, seq<Watcher>>, fwd: Forward) {
    occs'.Keys == occs.Keys && forall l :: l in occs ==> RenamedList(occs[l], occs'[l], fwd)
  }

  function Renamed(cr: CRef, fwd: Forward): CRef {
    if cr in fwd then fwd[cr] else CREF_UNDEF
  }

  // The reasons of assigned variables have been renamed, nothing else has changed.
  ghost predicate RenamedTrail(t: TrailState, u: TrailState, fwd: Forward) {
    && u.assigns == t.assigns && u.trail == t.trail && u.lim == t.lim && u.pos == t.pos
    && |u.vardata| == |t.vardata|
    && (forall v :: u.Lev(v) == t.Lev(v))
    && (forall v :: t.Assigned(v) ==>
        u.Why(v) == Renamed(t.Why(v), fwd) && (t.Why(v) != CREF_UNDEF ==> t.Why(v) in fwd))
  }

  ghost predicate RenamedRefs(cs: seq<CRef>, cs': seq<CRef>, fwd: Forward) {
    |cs'| == |cs| && forall i :: 0 <= i < |cs| ==> cs[i] in fwd && cs'[i] == fwd[cs[i]]
  }

  lemma MovedClause(mem: Memory, fwd: Forward, mem': Memory, cr: CRef)
    requires Moved(mem, fwd, mem') && Live(mem, cr)
    ensures cr in fwd && fwd[cr] in mem' && mem'[fwd[cr]] == mem[cr] && Live(mem', fwd[cr])
  {
    assert Copied(mem, fwd, mem', cr);
  }

  lemma MovedFrom(mem: Memory, fwd: Forward, mem': Memory, r: CRef) returns (cr: CRef)
    requires Moved(mem, fwd, mem') && r in mem'
    ensures Live(mem, cr) && cr in fwd && fwd[cr] == r && mem'[r] == mem[cr]
  {
    cr :| cr in fwd && fwd[cr] == r;
    assert Copied(mem, fwd, mem', cr);
  }

  lemma MoveTrail(t: TrailState, u: TrailState, fwd: Forward)
    requires TrailOK(t) && RenamedTrail(t, u, fwd)
    ensures TrailOK(u)
  {
    forall v | u.Assigned(v) ensures u.Pos(v) < |u.trail| && u.trail[u.Pos(v)] == u.TrueLit(v) && LevelOK(u, v) {
      assert t.Assigned(v) && LevelOK(t, v);
    }
    forall i | 0 <= i < |u.trail| ensures u.Val(u.trail[i]) == True && u.Pos(u.trail[i].v) == i {
      assert t.Val(t.trail[i]) == True;
    }
  }

  lemma MoveReasons(mem: Memory, fwd: Forward, mem': Memory, t: TrailState, u: TrailState)
    requires Moved(mem, fwd, mem') && ReasonsOK(mem, t) && RenamedTrail(t, u, fwd)
    requires CREF_UNDEF !in mem && CREF_UNDEF !in mem'
    ensures ReasonsOK(mem', u)
  {
    forall v | u.Assigned(v) ensures ReasonOK(mem', u, v) {
      assert t.Assigned(v) && ReasonOK(mem, t, v);
      if t.Why(v) != CREF_UNDEF {
        MovedClause(mem, fwd, mem', t.Why(v));
        assert mem'[u.Why(v)] == mem[t.Why(v)];
        assert Forced(u, mem[t.Why(v)].lits, u.TrueLit(v), u.Pos(v));
      }
    }
  }

  lemma MoveDb(mem: Memory, fwd: Forward, mem': Memory, n: nat)
    requires Moved(mem, fwd, mem') && DbOK(mem, n)
    ensures DbOK(mem', n) && MarksOK(mem')
  {
    forall r | r in mem' ensures ClauseOK(mem'[r].lits, n) && mem'[r].mark <= 1 {
      var cr := MovedFrom(mem, fwd, mem', r);
      assert ClauseOK(mem[cr].lits, n);
    }
  }

  lemma MoveProp(mem: Memory, fwd: Forward, mem': Memory, t: TrailState, u: TrailState, limit: nat)
    requires Moved(mem, fwd, mem') && PropOK(mem, t, limit) && RenamedTrail(t, u, fwd)
    ensures PropOK(mem', u, limit)
  {
    SameLevelsProp(mem, t, u, limit);
    forall r | Live(mem', r) ensures ClauseProp(u, mem'[r].lits, limit) {
      var cr := MovedFrom(mem, fwd, mem', r);
      assert ClauseProp(u, mem[cr].lits, limit);
    }
  }

  lemma MoveIn(ws: seq<Watcher>, ws': seq<Watcher>, fwd: Forward, cr: CRef)
    requires RenamedList(ws, ws', fwd) && In(ws, cr)
    ensures cr in fwd && In(ws', fwd[cr])
  {
    var i :| 0 <= i < |ws| && ws[i].cref == cr;
    assert ws'[i].cref == fwd[cr];
  }

  lemma MoveList(mem: Memory, fwd: Forward, mem': Memory, ws: seq<Watcher>, ws': seq<Watcher>, l: Lit)
    requires Moved(mem, fwd, mem') && ListOK(mem, ws, l, false) && RenamedList(ws, ws', fwd)
    ensures ListOK(mem', ws', l, false)
  {
    forall i | 0 <= i < |ws'| ensures WatcherOK(mem', ws'[i], l, false) {
      assert WatcherOK(mem, ws[i], l, false);
      MovedClause(mem, fwd, mem', ws[i].cref);
    }
    forall i, j | 0 <= i < j < |ws'| ensures ws'[i].cref != ws'[j].cref {
      assert ws[i].cref != ws[j].cref;
    }
  }

  /** Watches survive the collection. */
  lemma MoveWatches(mem: Memory, fwd: Forward, mem': Memory, occs: map<Lit, seq<Watcher>>,
          occs': map<Lit, seq<Watcher>>)
    requires Moved(mem, fwd, mem') && WatchOK(mem, occs, {}) && RenamedOccs(occs, occs', fwd)
    ensures WatchOK(mem', occs', {})
  {
    forall l | l in occs' ensures ListOK(mem', occs'[l], l, l in {}) {
      assert ListOK(mem, occs[l], l, l in {});
      MoveList(mem, fwd, mem', occs[l], occs'[l], l);
    }
    forall r | Live(mem', r) ensures Watched(mem'[r].lits, r, occs') {
      var cr := MovedFrom(mem, fwd, mem', r);
      var c := mem[cr].lits;
      assert Watched(c, cr, occs);
      MoveIn(occs[Neg(c[0])], occs'[Neg(c[0])], fwd, cr);
      MoveIn(occs[Neg(c[1])], occs'[Neg(c[1])], fwd, cr);
    }
  }

  /** The lists survive the collection. */
  lemma MoveRefs(mem: Memory, fwd: Forward, mem': Memory, cs: seq<CRef>, cs': seq<CRef>, learnt: bool)
    requires Moved(mem, fwd, mem') && RefsOK(mem, cs, learnt) && RenamedRefs(cs, cs', fwd)
    ensures RefsOK(mem', cs', learnt)
  {
    forall i, j | 0 <= i < j < |cs'| ensures cs'[i] != cs'[j] {
      assert cs[i] != cs[j];
    }
    forall r | r in cs' ensures Live(mem', r) && mem'[r].learnt == learnt {
      var i :| 0 <= i < |cs'| && cs'[i] == r;
      assert cs[i] in cs;
      MovedClause(mem, fwd, mem', cs[i]);
    }
    forall r | Live(mem', r) && mem'[r].learnt == learnt ensures r in cs' {
      var cr := MovedFrom(mem, fwd, mem', r);
      assert cr in cs;
      var i :| 0 <= i < |cs| && cs[i] == cr;
      assert cs'[i] == r;
    }
  }

  lemma {:induction false} MoveWords(mem: Memory, fwd: Forward, mem': Memory, cs: seq<CRef>, cs': seq<CRef>)
    requires Moved(mem, fwd, mem') && RenamedRefs(cs, cs', fwd)
    ensures TotalWords(mem', cs') == TotalWords(mem, cs)
  {
    if cs == [] {
    } else {
      assert Copied(mem, fwd, mem', cs[0]);
      MoveWords(mem, fwd, mem', cs[1..], cs'[1..]);
    }
  }

  lemma MoveSound(F: Formula, mem: Memory, fwd: Forward, mem': Memory, t: TrailState, u: TrailState)
    requires Moved(mem, fwd, mem') && Sound(F, mem, t) && RenamedTrail(t, u, fwd) && CREF_UNDEF !in mem'
    ensures Sound(F, mem', u)
  {
    forall r | Live(mem', r) ensures Implied(F, mem'[r].lits) {
      var cr := MovedFrom(mem, fwd, mem', r);
    }
    forall cr | cr in fwd ensures fwd[cr] != CREF_UNDEF {
      assert Copied(mem, fwd, mem', cr);
    }
    forall v | u.Assigned(v) && u.Lev(v) == 0 && u.Why(v) == CREF_UNDEF ensures Implied(F, [u.TrueLit(v)]) {
      assert t.Assigned(v) && t.Why(v) == CREF_UNDEF;
    }
  }

  lemma MoveComplete(F: Formula, mem: Memory, fwd: Forward, mem': Memory, cs: seq<CRef>, cs': seq<CRef>, t: TrailState,
          u: TrailState)
    requires Moved(mem, fwd, mem') && Complete(F, mem, cs, t) && RenamedTrail(t, u, fwd) && RenamedRefs(cs, cs', fwd)
    ensures Complete(F, mem', cs', u)
  {
    forall i | 0 <= i < |cs| && cs[i] in mem ensures Subsumed(mem', cs', mem[cs[i]].lits) {
      assert Copied(mem, fwd, mem', cs[i]);
      assert cs'[i] in mem';
      SubsumedBy(mem', cs', i, mem[cs[i]].lits);
    }
    CompleteStays(F, mem, cs, t, mem', cs', u);
  }

  // ---------- sizes ----------

  lemma {:induction false} ListWords(mem: Memory, cs: seq<CRef>)
    requires NoDuplicates(cs) && forall cr :: cr in cs ==> cr in mem
    ensures TotalWords(mem, cs) == SetWords(mem, SetOf(cs))
  {
    if cs == [] {
      assert SetOf(cs) == {};
    } else {
      ListWords(mem, cs[1..]);
      assert cs[0] !in cs[1..];
      assert SetOf(cs) == SetOf(cs[1..]) + {cs[0]};
      assert cs[0] in cs;
      SetWordsAdd(mem, SetOf(cs[1..]), cs[0]);
    }
  }

  /** The words of the live clauses are the size of the region minus its waste. */
  lemma LiveWords(mem: Memory, clauses: seq<CRef>, learnts: seq<CRef>, fwd: Forward, mem': Memory, sz: nat, wasted: nat)
    requires RefsOK(mem, clauses, false) && RefsOK(mem, learnts, true) && Balanced(mem, clauses, learnts, sz, wasted)
    requires Moved(mem, fwd, mem')
    ensures SetWords(mem, fwd.Keys) == sz - wasted
  {
    var cs := clauses + learnts;
    assert NoDuplicates(cs) by {
      forall i, j | 0 <= i < j < |cs| ensures cs[i] != cs[j] {
        var x, y := cs[i], cs[j];
        if i < |clauses| { assert x in clauses; }
        if j >= |clauses| { assert y in learnts; }
      }
    }
    forall cr ensures cr in cs <==> cr in fwd {
      assert cr in cs <==> cr in clauses || cr in learnts;
    }
    assert SetOf(cs) == fwd.Keys;
    ListWords(mem, cs);
    TotalWordsAppend(mem, clauses, learnts);
  }

  /** Nothing is wasted in the new region. */
  lemma MoveBalance(mem: Memory, clauses: seq<CRef>, learnts: seq<CRef>, fwd: Forward, mem': Memory,
                    clauses': seq<CRef>, learnts': seq<CRef>, sz: nat, wasted: nat)
    requires RefsOK(mem, clauses, false) && RefsOK(mem, learnts, true) && Balanced(mem, clauses, learnts, sz, wasted)
    requires Moved(mem, fwd, mem') && RenamedRefs(clauses, clauses', fwd) && RenamedRefs(learnts, learnts', fwd)
    ensures sz >= wasted && SetWords(mem, fwd.Keys) == sz - wasted
    ensures Balanced(mem', clauses', learnts', sz - wasted, 0)
  {
    LiveWords(mem, clauses, learnts, fwd, mem', sz, wasted);
    MoveWords(mem, fwd, mem', clauses, clauses');
    MoveWords(mem, fwd, mem', learnts, learnts');
  }

  // All live clauses are found in the watch lists, and only those.
  lemma WatchedMoved(mem: Memory, occs: map<Lit, seq<Watcher>>, occs': map<Lit, seq<Watcher>>, fwd: Forward,
          mem': Memory)
    requires WatchOK(mem, occs, {}) && RenamedOccs(occs, occs', fwd) && Relocating(mem, fwd, mem')
    requires forall cr :: cr in fwd ==> Live(mem, cr)
    ensures Moved(mem, fwd, mem')
  {
    forall cr | Live(mem, cr) ensures cr in fwd {
      var c := mem[cr].lits;
      assert Watched(c, cr, occs);
      MoveIn(occs[Neg(c[0])], occs'[Neg(c[0])], fwd, cr);
    }
  }

  lemma RenamedMore(ws: seq<Watcher>, ws': seq<Watcher>, fwd: Forward, fwd': Forward)
    requires RenamedList(ws, ws', fwd) && ForwardsMore(fwd, fwd')
    ensures RenamedList(ws, ws', fwd')
  {
  }

  // The lists of the variables below v have been renamed, the others are as they were.
  ghost predicate RenamedBelow(occs: map<Lit, seq<Watcher>>, occs': map<Lit, seq<Watcher>>, fwd: Forward, v: nat) {
    && occs'.Keys == occs.Keys
    && forall l :: l in occs ==> if l.v < v then RenamedList(occs[l], occs'[l], fwd) else occs'[l] == occs[l]
  }

  lemma RenamedNext(occs: map<Lit, seq<Watcher>>, occs0: map<Lit, seq<Watcher>>, occs1: map<Lit, seq<Watcher>>,
          occs2: map<Lit, seq<Watcher>>, fwd0: Forward, fwd1: Forward, fwd2: Forward, v: nat)
    requires RenamedBelow(occs, occs0, fwd0, v) && ForwardsMore(fwd0, fwd1) && ForwardsMore(fwd1, fwd2)
    requires occs1.Keys == occs0.Keys == occs2.Keys && Lit(v, false) in occs && Lit(v, true) in occs
    requires RenamedList(occs0[Lit(v, false)], occs1[Lit(v, false)], fwd1)
    requires RenamedList(occs1[Lit(v, true)], occs2[Lit(v, true)], fwd2)
    requires forall l :: l in occs1 && l != Lit(v, false) ==> occs1[l] == occs0[l]
    requires forall l :: l in occs2 && l != Lit(v, true) ==> occs2[l] == occs1[l]
    ensures RenamedBelow(occs, occs2, fwd2, v + 1)
  {
    forall l | l in occs && l.v < v + 1 ensures RenamedList(occs[l], occs2[l], fwd2) {
      if l.v < v {
        RenamedMore(occs[l], occs0[l], fwd0, fwd2);
      } else if !l.neg {
        assert l == Lit(v, false);
        RenamedMore(occs[l], occs1[l], fwd1, fwd2);
      } else {
        assert l == Lit(v, true);
      }
    }
  }

  // The reasons of the first i variables of the trail have been renamed.
  ghost predicate RenamedReasons(t: TrailState, u: TrailState, fwd: Forward, i: nat) {
    && u.assigns == t.assigns && u.trail == t.trail && u.lim == t.lim && u.pos == t.pos
    && |u.vardata| == |t.vardata|
    && (forall v :: u.Lev(v) == t.Lev(v))
    && (forall v :: t.Assigned(v) ==>
          u.Why(v) == if t.Pos(v) < i then Renamed(t.Why(v), fwd) else t.Why(v))
  }

  lemma ReasonMoved(mem: Memory, t: TrailState, fwd: Forward, mem': Memory, v: Var)
    requires ReasonsOK(mem, t) && Moved(mem, fwd, mem') && t.Assigned(v) && t.Why(v) != CREF_UNDEF
    ensures t.Why(v) in fwd
  {
    assert ReasonOK(mem, t, v);
  }

  lemma ReasonsRenamed(mem: Memory, t: TrailState, u: TrailState, fwd: Forward, mem': Memory)
    requires TrailOK(t) && ReasonsOK(mem, t) && Moved(mem, fwd, mem') && RenamedReasons(t, u, fwd, |t.trail|)
    ensures RenamedTrail(t, u, fwd)
  {
    forall v | t.Assigned(v) ensures u.Why(v) == Renamed(t.Why(v), fwd)
        && (t.Why(v) != CREF_UNDEF ==> t.Why(v) in fwd)
    {
      assert t.Pos(v) < |t.trail|;
      if t.Why(v) != CREF_UNDEF { ReasonMoved(mem, t, fwd, mem', v); }
    }
  }

  // A reason clause is locked until its reference has been renamed.
  lemma ReasonStillLocked(mem: Memory, t: TrailState, u: TrailState, fwd: Forward, i: nat)
    requires TrailOK(t) && ReasonsOK(mem, t) && RenamedReasons(t, u, fwd, i) && i < |t.trail|
    ensures var x := t.trail[i].v;
            var r := t.Why(x);
            |u.vardata| == |u.assigns| &&
            (r != CREF_UNDEF ==>
                r in mem && |mem[r].lits| > 0 && mem[r].lits[0].v < |u.assigns| && Locked(u, mem[r].lits, r))
  {
    TrailLit(t, i);
    assert ReasonOK(mem, t, t.trail[i].v);
  }

  lemma RenameStep(mem: Memory, t: TrailState, u: TrailState, fwd: Forward, i: nat)
    requires TrailOK(t) && RenamedReasons(t, u, fwd, i) && i < |t.trail|
    ensures t.trail[i].v < |u.vardata| && u.Why(t.trail[i].v) == t.Why(t.trail[i].v) && t.Assigned(t.trail[i].v)
    ensures var x := t.trail[i].v;
            RenamedReasons(t, u.(vardata := u.vardata[x := VarData(Renamed(t.Why(x), fwd), u.vardata[x].level)]), fwd,
                i + 1)
  {
    TrailLit(t, i);
    var x := t.trail[i].v;
    var w := u.(vardata := u.vardata[x := VarData(Renamed(t.Why(x), fwd), u.vardata[x].level)]);
    forall v ensures w.Lev(v) == t.Lev(v) {
      assert w.Lev(v) == u.Lev(v);
    }
    forall v | t.Assigned(v) ensures w.Why(v) == if t.Pos(v) < i + 1 then Renamed(t.Why(v), fwd) else t.Why(v) {
      if v != x {
        assert w.Why(v) == u.Why(v);
        assert t.trail[t.Pos(v)] == t.TrueLit(v);
      }
    }
  }

  /** The database is equivalent to F before and after. */
  lemma MoveDatabase(F: Formula, mem: Memory, fwd: Forward, mem': Memory, t: TrailState, u: TrailState,
                     clauses: seq<CRef>, learnts: seq<CRef>, clauses': seq<CRef>, learnts': seq<CRef>, sz: nat,
                     wasted: nat, n: nat)
    requires DatabaseOK(F, mem, clauses, learnts, t, sz, wasted) && Moved(mem, fwd, mem') && RenamedTrail(t, u, fwd)
    requires RenamedRefs(clauses, clauses', fwd) && RenamedRefs(learnts, learnts', fwd)
    requires CREF_UNDEF !in mem && CREF_UNDEF !in mem' && DbOK(mem, n)
    ensures sz >= wasted && SetWords(mem, fwd.Keys) == sz - wasted
    ensures DatabaseOK(F, mem', clauses', learnts', u, sz - wasted, 0)
  {
    hide Moved, Sound, Complete, RefsOK;
    MoveDb(mem, fwd, mem', n);
    MoveRefs(mem, fwd, mem', clauses, clauses', false);
    MoveRefs(mem, fwd, mem', learnts, learnts', true);
    MoveBalance(mem, clauses, learnts, fwd, mem', clauses', learnts', sz, wasted);
    MoveSound(F, mem, fwd, mem', t, u);
    MoveComplete(F, mem, fwd, mem', clauses, clauses', t, u);
  }

  lemma MoveCore(mem: Memory, fwd: Forward, mem': Memory, t: TrailState, u: TrailState, limit: nat)
    requires Moved(mem, fwd, mem') && RenamedTrail(t, u, fwd) && CREF_UNDEF !in mem && CREF_UNDEF !in mem'
    requires TrailOK(t) && ReasonsOK(mem, t) && DbOK(mem, |t.assigns|) && PropOK(mem, t, limit)
    ensures TrailOK(u) && ReasonsOK(mem', u) && DbOK(mem', |u.assigns|) && PropOK(mem', u, limit)
  {
    MoveTrail(t, u, fwd);
    MoveReasons(mem, fwd, mem', t, u);
    MoveDb(mem, fwd, mem', |t.assigns|);
    MoveProp(mem, fwd, mem', t, u, limit);
  }

  lemma RenamedKeys(occs: map<Lit, seq<Watcher>>, occs': map<Lit, seq<Watcher>>, fwd: Forward, n: nat)
    requires RenamedOccs(occs, occs', fwd) && OccKeys(occs, n)
    ensures OccKeys(occs', n)
  {
  }

  /** They survive a copying collection, which wastes nothing. */
  lemma MoveState(F: Formula, mem: Memory, occs: map<Lit, seq<Watcher>>, dirty: set<Lit>, t: TrailState,
          clauses: seq<CRef>, learnts: seq<CRef>, sz: nat, wasted: nat, limit: nat, fwd: Forward, mem': Memory,
          occs': map<Lit, seq<Watcher>>, t': TrailState, clauses': seq<CRef>, learnts': seq<CRef>)
    requires StateOK(F, mem, occs, dirty, t, clauses, learnts, sz, wasted, limit)
    requires Moved(mem, fwd, mem') && RenamedTrail(t, t', fwd) && RenamedOccs(Cleaned(mem, occs, dirty), occs', fwd)
    requires RenamedRefs(clauses, clauses', fwd) && RenamedRefs(learnts, learnts', fwd) && CREF_UNDEF !in mem'
    ensures sz >= wasted && SetWords(mem, fwd.Keys) == sz - wasted && |t'.assigns| == |t.assigns|
    ensures StateOK(F, mem', occs', {}, t', clauses', learnts', sz - wasted, 0, limit)
  {
    hide WatchOK, PropOK, ReasonsOK, DbOK, TrailOK, RefsOK, Sound, Complete, Balanced, OccKeys, Moved, RenamedRefs,
         RenamedOccs, Cleaned, MarksOK;
    MoveDatabase(F, mem, fwd, mem', t, t', clauses, learnts, clauses', learnts', sz, wasted, |t.assigns|);
    MoveCore(mem, fwd, mem', t, t', limit);
    DatabaseMarks(F, mem, clauses, learnts, t, sz, wasted);
    CleanWatch(mem, occs, dirty);
    CleanKeys(mem, occs, dirty, |t.assigns|);
    MoveWatches(mem, fwd, mem', Cleaned(mem, occs, dirty), occs');
    RenamedKeys(Cleaned(mem, occs, dirty), occs', fwd, |t.assigns|);
  }

  lemma DatabaseMarks(F: Formula, mem: Memory, clauses: seq<CRef>, learnts: seq<CRef>, t: TrailState, sz: nat,
          wasted: nat)
    requires DatabaseOK(F, mem, clauses, learnts, t, sz, wasted)
    ensures forall cr :: cr in mem ==> mem[cr].mark <= 1
  {
  }

  /** The same assignment on the same levels with the same decisions; only reasons of forced
      literals and of facts may have changed. */
  ghost predicate SameButReasons(t: TrailState, u: TrailState) {
    && u.assigns == t.assigns && u.trail == t.trail && u.lim == t.lim && u.pos == t.pos
    && |u.vardata| == |t.vardata| && (forall v :: u.Lev(v) == t.Lev(v))
    && (forall v :: t.Assigned(v) && t.Lev(v) > 0 ==> (u.Why(v) == CREF_UNDEF <==> t.Why(v) == CREF_UNDEF))
  }

  lemma RenamedSame(mem: Memory, fwd: Forward, mem': Memory, t: TrailState, u: TrailState)
    requires Moved(mem, fwd, mem') && RenamedTrail(t, u, fwd) && CREF_UNDEF !in mem' && CREF_UNDEF !in mem
    ensures SameButReasons(t, u)
  {
    forall cr | cr in fwd ensures fwd[cr] != CREF_UNDEF {
      assert Copied(mem, fwd, mem', cr);
    }
  }

  lemma SameRefl(t: TrailState)
    ensures SameButReasons(t, t)
  {
  }

  lemma SameEnds(t: TrailState, u: TrailState)
    requires SameButReasons(t, u)
    ensures u.assigns == t.assigns && u.trail == t.trail && u.lim == t.lim
  {
  }

  lemma SameTrans(t: TrailState, u: TrailState, w: TrailState)
    requires SameButReasons(t, u) && SameButReasons(u, w)
    ensures SameButReasons(t, w)
  {
    forall v | t.Assigned(v) && t.Lev(v) > 0 ensures w.Why(v) == CREF_UNDEF <==> t.Why(v) == CREF_UNDEF {
      assert u.Assigned(v) && u.Lev(v) == t.Lev(v);
    }
  }

  lemma ReleasedSame(t: TrailState, c: seq<Lit>, cr: CRef)
    requires TrailOK(t) && |t.lim| == 0
    ensures SameButReasons(t, Released(t, c, cr))
  {
    forall v | t.Assigned(v) ensures t.Lev(v) == 0 {
      assert LevelOK(t, v);
    }
  }

  lemma StartReloc(mem: Memory, act: map<CRef, real>)
    ensures Relocating(mem, map[], map[]) && SameActivities(mem, act, map[], map[])
    ensures SetWords(mem, {}) == 0
  {
  }
}
