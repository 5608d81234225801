/** The lists of problem and learnt clauses against the clause region: every live clause is on
    exactly one list, and the words in use are those of the listed clauses. */
module SatDatabase {
  import opened SatTypes
  import opened SatCore
  import opened SatPropagate
  import opened SatLearn
  import opened SatSteps
  import opened ClauseAllocators

  predicate NoDuplicates(cs: seq<CRef>) {
    forall i, j :: 0 <= i < j < |cs| ==> cs[i] != cs[j]
  }

  /** cs lists the live clauses with the given learnt flag, each once. */
  ghost predicate RefsOK(mem: Memory, cs: seq<CRef>, learnt: bool) {
    && NoDuplicates(cs)
    && forall cr :: cr in cs <==> Live(mem, cr) && mem[cr].learnt == learnt
  }

  // Memory not wasted is memory of listed clauses.
  predicate Balanced(mem: Memory, clauses: seq<CRef>, learnts: seq<CRef>, sz: nat, wasted: nat) {
    sz == wasted + TotalWords(mem, clauses) + TotalWords(mem, learnts)
  }

  /** The clause lists match the region, and the facts of level 0 together with the problem
      clauses are equivalent to the formula F. */
  ghost predicate DatabaseOK(F: Formula, mem: Memory, clauses: seq<CRef>, learnts: seq<CRef>, t: TrailState, sz: nat,
          wasted: nat)
  {
    && MarksOK(mem) && RefsOK(mem, clauses, false) && RefsOK(mem, learnts, true)
    && Balanced(mem, clauses, learnts, sz, wasted)
    && Sound(F, mem, t) && Complete(F, mem, clauses, t)
  }

  // ---------- words ----------

  lemma {:induction false} TotalWordsAppend(mem: Memory, cs: seq<CRef>, ds: seq<CRef>)
    ensures TotalWords(mem, cs + ds) == TotalWords(mem, cs) + TotalWords(mem, ds)
  {
    if cs == [] {
      assert cs + ds == ds;
    } else {
      assert (cs + ds)[1..] == cs[1..] + ds;
      TotalWordsAppend(mem, cs[1..], ds);
    }
  }

  lemma {:induction false} TotalWordsSame(mem: Memory, mem': Memory, cs: seq<CRef>)
    requires forall cr :: cr in cs ==> (cr in mem <==> cr in mem')
    requires forall cr :: cr in cs && cr in mem ==> Words(mem'[cr]) == Words(mem[cr])
    ensures TotalWords(mem', cs) == TotalWords(mem, cs)
  {
    if cs == [] {
    } else {
      var cr := cs[0];
      assert cr in cs;
      assert cr in mem ==> cr in mem' && Words(mem'[cr]) == Words(mem[cr]);
      TotalWordsSame(mem, mem', cs[1..]);
    }
  }

  lemma TotalWordsWithout(mem: Memory, cs: seq<CRef>, j: nat)
    requires j < |cs| && cs[j] in mem
    ensures TotalWords(mem, cs) == TotalWords(mem, Without(cs, j)) + Words(mem[cs[j]])
  {
    assert cs == cs[..j] + ([cs[j]] + cs[j + 1..]);
    TotalWordsAppend(mem, cs[..j], [cs[j]] + cs[j + 1..]);
    TotalWordsAppend(mem, cs[..j], cs[j + 1..]);
    assert ([cs[j]] + cs[j + 1..])[1..] == cs[j + 1..];
  }

  lemma TotalWordsPush(mem: Memory, cs: seq<CRef>, cr: CRef)
    requires cr in mem
    ensures TotalWords(mem, cs + [cr]) == TotalWords(mem, cs) + Words(mem[cr])
  {
    TotalWordsAppend(mem, cs, [cr]);
    assert [cr][1..] == [];
  }

  // ---------- steps ----------

  lemma SameWords(mem: Memory, mem': Memory, cs: seq<CRef>)
    requires SameDb(mem', mem)
    ensures TotalWords(mem', cs) == TotalWords(mem, cs)
  {
    forall cr | cr in mem ensures Words(mem'[cr]) == Words(mem[cr]) {
      assert SameClause(mem'[cr], mem[cr]);
    }
    TotalWordsSame(mem, mem', cs);
  }

  /** Reordering literals inside clauses keeps the lists. */
  lemma SameRefs(mem: Memory, mem': Memory, cs: seq<CRef>, learnt: bool)
    requires SameDb(mem', mem) && RefsOK(mem, cs, learnt)
    ensures RefsOK(mem', cs, learnt)
  {
    forall cr ensures Live(mem', cr) && mem'[cr].learnt == learnt <==> Live(mem, cr) && mem[cr].learnt == learnt {
      if cr in mem { assert SameClause(mem'[cr], mem[cr]); }
    }
  }

  lemma SameMarks(mem: Memory, mem': Memory)
    requires SameDb(mem', mem) && MarksOK(mem)
    ensures MarksOK(mem')
  {
    forall cr | cr in mem' ensures mem'[cr].mark <= 1 {
      assert SameClause(mem'[cr], mem[cr]);
    }
  }

  lemma AddRefs(mem: Memory, cs: seq<CRef>, ds: seq<CRef>, cr: CRef, d: Clause)
    requires RefsOK(mem, cs, d.learnt) && RefsOK(mem, ds, !d.learnt) && cr !in mem && d.mark == 0
    ensures RefsOK(mem[cr := d], cs + [cr], d.learnt) && RefsOK(mem[cr := d], ds, !d.learnt)
    ensures TotalWords(mem[cr := d], cs + [cr]) == TotalWords(mem, cs) + Words(d)
    ensures TotalWords(mem[cr := d], ds) == TotalWords(mem, ds)
  {
    var mem' := mem[cr := d];
    assert cr !in cs && cr !in ds;
    forall x ensures x in cs + [cr] <==> Live(mem', x) && mem'[x].learnt == d.learnt {
      assert x in cs + [cr] <==> x in cs || x == cr;
    }
    forall x ensures x in ds <==> Live(mem', x) && mem'[x].learnt == !d.learnt {
    }
    TotalWordsPush(mem', cs, cr);
    TotalWordsSame(mem, mem', cs);
    TotalWordsSame(mem, mem', ds);
  }

  lemma WithoutElements<T>(cs: seq<T>, j: nat)
    requires j < |cs|
    ensures forall x :: x in cs <==> x in Without(cs, j) || x == cs[j]
  {
    forall x | x in cs ensures x in Without(cs, j) || x == cs[j] {
      var i :| 0 <= i < |cs| && cs[i] == x;
      if i != j { assert Without(cs, j)[if i < j then i else i - 1] == x; }
    }
  }

  lemma WithoutDuplicates(cs: seq<CRef>, j: nat)
    requires j < |cs| && NoDuplicates(cs)
    ensures NoDuplicates(Without(cs, j)) && cs[j] !in Without(cs, j)
  {
    forall i | 0 <= i < |Without(cs, j)| ensures Without(cs, j)[i] == cs[if i < j then i else i + 1] {
    }
  }

  /** Deleting a listed clause takes it off its list and leaves the other list alone. */
  lemma RemoveRefs(mem: Memory, cs: seq<CRef>, ds: seq<CRef>, learnt: bool, j: nat)
    requires RefsOK(mem, cs, learnt) && RefsOK(mem, ds, !learnt) && j < |cs| && cs[j] in mem
    ensures RefsOK(Deleting(mem, cs[j]), Without(cs, j), learnt) && RefsOK(Deleting(mem, cs[j]), ds, !learnt)
    ensures TotalWords(Deleting(mem, cs[j]), Without(cs, j)) + Words(mem[cs[j]]) == TotalWords(mem, cs)
    ensures TotalWords(Deleting(mem, cs[j]), ds) == TotalWords(mem, ds)
  {
    var cr := cs[j];
    var mem' := Deleting(mem, cr);
    assert cr in cs;
    WithoutElements(cs, j);
    WithoutDuplicates(cs, j);
    forall x ensures Live(mem', x) <==> Live(mem, x) && x != cr {
    }
    TotalWordsWithout(mem, cs, j);
    TotalWordsSame(mem, mem', Without(cs, j));
    TotalWordsSame(mem, mem', ds);
  }

  lemma LearnLists(mem: Memory, clauses: seq<CRef>, learnts: seq<CRef>, sz: nat, wasted: nat, cr: CRef, c: seq<Lit>)
    requires RefsOK(mem, clauses, false) && RefsOK(mem, learnts, true) && MarksOK(mem) && cr !in mem
    requires Balanced(mem, clauses, learnts, sz, wasted)
    ensures var d := Clause(c, true, 0);
            var mem' := mem[cr := d];
            && RefsOK(mem', clauses, false) && RefsOK(mem', learnts + [cr], true) && MarksOK(mem')
            && Balanced(mem', clauses, learnts + [cr], sz + Words(d), wasted)
    ensures forall i :: 0 <= i < |clauses| ==> clauses[i] in mem
  {
    AddRefs(mem, learnts, clauses, cr, Clause(c, true, 0));
    forall i | 0 <= i < |clauses| ensures clauses[i] in mem {
      var x := clauses[i];
      assert x in clauses;
    }
  }

  lemma LearntActivities(mem: Memory, act: map<CRef, real>, learnts: seq<CRef>)
    requires RefsOK(mem, learnts, true) && forall cr :: cr in mem && mem[cr].learnt ==> cr in act
    ensures forall i :: 0 <= i < |learnts| ==> learnts[i] in act
  {
    forall i | 0 <= i < |learnts| ensures learnts[i] in act {
      var cr := learnts[i];
      assert cr in learnts;
      assert cr in mem && mem[cr].learnt;
    }
  }

  ghost predicate SatisfiedNow(t: TrailState, c: seq<Lit>) {
    exists p :: p in c && t.Val(p) == True
  }

  lemma SameSatisfied(t: TrailState, u: TrailState)
    requires u.assigns == t.assigns
    ensures forall c :: SatisfiedNow(u, c) <==> SatisfiedNow(t, c)
  {
    forall c ensures SatisfiedNow(u, c) <==> SatisfiedNow(t, c) {
      forall p ensures u.Val(p) == t.Val(p) {
      }
    }
  }

  /** Removing a satisfied problem clause keeps the database equivalent to F. */
  lemma RemoveProblem(F: Formula, mem: Memory, clauses: seq<CRef>, learnts: seq<CRef>, t: TrailState, sz: nat,
          wasted: nat, j: nat)
    requires DatabaseOK(F, mem, clauses, learnts, t, sz, wasted) && TrailOK(t) && ReasonsOK(mem, t)
    requires j < |clauses| && Live(mem, clauses[j]) && FixedTrue(t, mem[clauses[j]].lits)
    ensures var cr := clauses[j];
      DatabaseOK(F, Deleting(mem, cr), Without(clauses, j), learnts, Released(t, mem[cr].lits, cr), sz,
          wasted + Words(mem[cr]))
  {
    hide Sound, Complete, RefsOK;
    var cr := clauses[j];
    RemoveRefs(mem, clauses, learnts, false, j);
    ReleasedSound(F, mem, t, cr);
    ReleasedComplete(F, mem, clauses, t, cr, j);
  }

  /** Removing a learnt clause keeps the database equivalent to F. */
  lemma RemoveLearnt(F: Formula, mem: Memory, clauses: seq<CRef>, learnts: seq<CRef>, t: TrailState, sz: nat,
          wasted: nat, j: nat)
    requires DatabaseOK(F, mem, clauses, learnts, t, sz, wasted) && TrailOK(t) && ReasonsOK(mem, t)
    requires j < |learnts| && Live(mem, learnts[j])
    ensures var cr := learnts[j];
      DatabaseOK(F, Deleting(mem, cr), clauses, Without(learnts, j), Released(t, mem[cr].lits, cr), sz,
          wasted + Words(mem[cr]))
  {
    hide Sound, Complete, RefsOK;
    var cr := learnts[j];
    RemoveRefs(mem, learnts, clauses, true, j);
    ReleasedSound(F, mem, t, cr);
    ReleasedOther(F, mem, clauses, t, cr);
  }

  // Deleting a clause keeps the trail and watch invariants.
  lemma DeleteCore(mem: Memory, occs: map<Lit, seq<Watcher>>, dirty: set<Lit>, t: TrailState, limit: nat, cr: CRef)
    requires TrailOK(t) && ReasonsOK(mem, t) && DbOK(mem, |t.assigns|) && WatchOK(mem, occs, dirty)
        && PropOK(mem, t, limit)
    requires Live(mem, cr) && cr != CREF_UNDEF && (Locked(t, mem[cr].lits, cr) ==> |t.lim| == 0)
    ensures var c := mem[cr].lits;
      var u := Released(t, c, cr);
      var mem' := Deleting(mem, cr);
      && |c| >= 2 && TrailOK(u) && ReasonsOK(mem', u) && DbOK(mem', |u.assigns|) && PropOK(mem', u, limit)
      && WatchOK(mem', occs, dirty + {Neg(c[0]), Neg(c[1])})
  {
    hide ReasonsOK, PropOK, WatchOK, Distinct, LevelOK, LimOK;
    var c := mem[cr].lits;
    assert ClauseOK(c, |t.assigns|);
    ReleasedTrail(t, c, cr);
    ReleasedReasons(mem, t, cr);
    DeleteDb(mem, |t.assigns|, cr);
    DeleteProp(mem, t, limit, cr);
    SameLevelsProp(Deleting(mem, cr), t, Released(t, c, cr), limit);
    DeleteWatch(mem, occs, dirty, cr);
  }

  // The clause of a listed reference.
  lemma ListedClause(mem: Memory, cs: seq<CRef>, learnt: bool, n: nat, j: nat)
    requires RefsOK(mem, cs, learnt) && DbOK(mem, n) && j < |cs|
    ensures Live(mem, cs[j]) && mem[cs[j]].learnt == learnt && ClauseOK(mem[cs[j]].lits, n)
  {
    var cr := cs[j];
    assert cr in cs;
    assert ClauseOK(mem[cr].lits, n);
  }

  /** The invariants of the search state, on values. */
  ghost predicate StateOK(F: Formula, mem: Memory, occs: map<Lit, seq<Watcher>>, dirty: set<Lit>, t: TrailState,
                          clauses: seq<CRef>, learnts: seq<CRef>, sz: nat, wasted: nat, limit: nat) {
    && CREF_UNDEF !in mem && OccKeys(occs, |t.assigns|) && WatchOK(mem, occs, dirty)
    && TrailOK(t) && ReasonsOK(mem, t) && DbOK(mem, |t.assigns|) && PropOK(mem, t, limit)
    && DatabaseOK(F, mem, clauses, learnts, t, sz, wasted)
  }

  lemma InitialDatabase()
    ensures DatabaseOK({}, map[], [], [], TrailState([], [], [], [], []), 0, 0)
  {
  }

  lemma InitialState()
    ensures StateOK({}, map[], map[], {}, TrailState([], [], [], [], []), [], [], 0, 0, 0)
  {
    hide DatabaseOK;
    InitialDatabase();
  }

  /** They survive learning a clause and asserting its first literal. */
  lemma LearnState(F: Formula, mem: Memory, occs: map<Lit, seq<Watcher>>, dirty: set<Lit>, t: TrailState,
                   clauses: seq<CRef>, learnts: seq<CRef>, sz: nat, wasted: nat, c: seq<Lit>)
    requires StateOK(F, mem, occs, dirty, t, clauses, learnts, sz, wasted, |t.trail|)
    requires ClauseOK(c, |t.assigns|) && Implied(F, c) && t.Val(c[0]) == Undef && t.Lev(c[1].v) == t.DL()
    requires sz !in mem && forall i :: 1 <= i < |c| ==> t.Val(c[i]) == False
    ensures Neg(c[0]) in occs && Neg(c[1]) in occs && |t.vardata| == |t.assigns| == |t.pos|
    ensures var d := Clause(c, true, 0);
            StateOK(F, mem[sz := d], Attached(occs, sz, c), dirty, Enqueued(t, c[0], sz),
                    clauses, learnts + [sz], sz + Words(d), wasted, |t.trail|)
  {
    hide WatchOK, PropOK, ReasonsOK, DbOK, TrailOK, RefsOK, Sound, Complete, Balanced, OccKeys, MarksOK, Implied,
         Distinct, InRange;
    TrailLens(t);
    LearnLists(mem, clauses, learnts, sz, wasted, sz, c);
    LearnWatches(mem, occs, dirty, sz, c, |t.assigns|);
    LearnTrail(F, mem, clauses, t, |t.trail|, sz, c);
  }

  lemma StateActivities(F: Formula, mem: Memory, occs: map<Lit, seq<Watcher>>, dirty: set<Lit>, t: TrailState,
                        clauses: seq<CRef>, learnts: seq<CRef>, sz: nat, wasted: nat, limit: nat, act: map<CRef, real>)
    requires StateOK(F, mem, occs, dirty, t, clauses, learnts, sz, wasted, limit)
    requires forall cr :: cr in mem && mem[cr].learnt ==> cr in act
    ensures forall i :: 0 <= i < |learnts| ==> learnts[i] in act
  {
    LearntActivities(mem, act, learnts);
  }
}
