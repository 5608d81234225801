/** One visit of the propagation loop: while the watch list of p is rewritten in place, its
    entries below j are settled, those from i on are still to be visited, and the entries in
    between are garbage. */
module SatPropagate {
  import opened Basics
  import opened SatTypes
  import opened SatCore

  ghost predicate OccKeys(occs: map<Lit, seq<Watcher>>, n: nat) {
    forall l: Lit :: l in occs <==> l.v < n
  }

  ghost predicate Settled(mem: Memory, ws: seq<Watcher>, t: TrailState, j: nat)
    requires j <= |ws|
  {
    forall k :: 0 <= k < j ==> ws[k].cref in mem && TrueBelow(t, mem[ws[k].cref].lits, t.DL())
  }

  ghost predicate Visit(mem: Memory, occs: map<Lit, seq<Watcher>>, t: TrailState, p: Lit, i: nat, j: nat) {
    && p in occs && j <= i <= |occs[p]| && t.Val(p) == True
    && TrailOK(t) && ReasonsOK(mem, t) && DbOK(mem, |t.assigns|) && CREF_UNDEF !in mem
    && t.LevelStart() <= t.Pos(p.v)
    && PropOK(mem, t, t.Pos(p.v))
    && WatchOK(mem, occs[p := Compacted(occs[p], i, j)], {})
    && Settled(mem, occs[p], t, j)
  }

  lemma VisitFacts(mem: Memory, occs: map<Lit, seq<Watcher>>, t: TrailState, p: Lit, i: nat, j: nat)
    requires Visit(mem, occs, t, p, i, j)
    ensures p in occs && j <= i <= |occs[p]| && t.Val(p) == True
    ensures TrailOK(t) && |t.vardata| == |t.pos| == |t.assigns|
  {
  }

  // The visited watcher is a watcher of a live clause.
  lemma VisitWatcher(mem: Memory, occs: map<Lit, seq<Watcher>>, t: TrailState, p: Lit, i: nat, j: nat)
    requires Visit(mem, occs, t, p, i, j) && i < |occs[p]|
    ensures WatcherOK(mem, occs[p][i], p, false) && Live(mem, occs[p][i].cref)
    ensures ClauseOK(mem[occs[p][i].cref].lits, |t.assigns|)
  {
    var ws := Compacted(occs[p], i, j);
    assert ListOK(mem, occs[p := ws][p], p, p in {});
    assert ws[j] == occs[p][i];
  }

  lemma AtDL(t: TrailState, v: Var)
    requires TrailOK(t) && t.Assigned(v) && t.LevelStart() <= t.Pos(v)
    ensures t.Lev(v) == t.DL()
  {
    assert LevelOK(t, v);
  }

  lemma MaxDL(t: TrailState, v: Var)
    requires TrailOK(t) && t.Assigned(v)
    ensures t.Lev(v) <= t.DL()
  {
    assert LevelOK(t, v);
  }

  lemma TrueLitBelow(t: TrailState, c: seq<Lit>, q: Lit)
    requires TrailOK(t) && q in c && t.Val(q) == True
    ensures TrueBelow(t, c, t.DL())
  {
    MaxDL(t, q.v);
  }

  // The visited watcher moves from index i to index j, possibly with another blocker.
  lemma KeepWatch(mem: Memory, occs: map<Lit, seq<Watcher>>, p: Lit, i: nat, j: nat, w: Watcher)
    requires p in occs && j <= i < |occs[p]|
    requires WatchOK(mem, occs[p := Compacted(occs[p], i, j)], {})
    requires w.cref == occs[p][i].cref && WatcherOK(mem, w, p, false)
    ensures var ws := occs[p][j := w];
            WatchOK(mem, occs[p := ws][p := Compacted(ws, i + 1, j + 1)], {})
  {
    var ws := occs[p][j := w];
    var es := Compacted(occs[p], i, j);
    assert Compacted(ws, i + 1, j + 1) == es[j := w];
    ReblockWatch(mem, occs[p := es], {}, p, j, w);
    assert occs[p := ws][p := es[j := w]] == occs[p := es][p := es[j := w]];
  }

  lemma VisitKeep(mem: Memory, occs: map<Lit, seq<Watcher>>, t: TrailState, p: Lit, i: nat, j: nat, w: Watcher)
    requires Visit(mem, occs, t, p, i, j) && i < |occs[p]|
    requires w.cref == occs[p][i].cref && WatcherOK(mem, w, p, false)
    requires TrueBelow(t, mem[w.cref].lits, t.DL())
    ensures Visit(mem, occs[p := occs[p][j := w]], t, p, i + 1, j + 1)
  {
    KeepWatch(mem, occs, p, i, j, w);
  }

  lemma VisitSwap(mem: Memory, occs: map<Lit, seq<Watcher>>, t: TrailState, p: Lit, i: nat, j: nat, cr: CRef)
    requires Visit(mem, occs, t, p, i, j) && Live(mem, cr) && |mem[cr].lits| >= 2
    requires t.Val(mem[cr].lits[0]) == False
    ensures Visit(mem[cr := mem[cr].(lits := Exchanged(mem[cr].lits, 0, 1))], occs, t, p, i, j)
  {
    var c := mem[cr].lits;
    var d := mem[cr].(lits := Exchanged(c, 0, 1));
    assert ClauseOK(c, |t.assigns|);
    SwapLits(c, 0, 1, |t.assigns|);
    NotReason(mem, t, cr);
    ReplaceReasons(mem, t, cr, d);
    ReplaceDb(mem, |t.assigns|, cr, d);
    SamePropagated(t, c, d.lits, t.Pos(p.v), mem, cr);
    ReplaceProp(mem, t, t.Pos(p.v), cr, d);
    SwapWatch(mem, occs[p := Compacted(occs[p], i, j)], {}, cr, d);
    SettledReplace(mem, occs[p], t, j, cr, d);
  }

  lemma SamePropagated(t: TrailState, c: seq<Lit>, d: seq<Lit>, limit: nat, mem: Memory, cr: CRef)
    requires PropOK(mem, t, limit) && Live(mem, cr) && mem[cr].lits == c && |c| >= 2
    requires SameLits(d, c) && forall q :: q in d[..2] ==> q in c[..2] || t.Val(q) != False
    ensures ClauseProp(t, d, limit)
  {
    assert ClauseProp(t, c, limit);
    forall q | q in d[..2] ensures WatchProp(t, d, q, limit) {
      if t.Val(q) == False && t.Pos(q.v) < limit {
        assert WatchProp(t, c, q, limit);
      }
    }
    assert d[0] in d[..2] && d[1] in d[..2];
  }

  lemma SettledReplace(mem: Memory, ws: seq<Watcher>, t: TrailState, j: nat, cr: CRef, d: Clause)
    requires j <= |ws| && Settled(mem, ws, t, j) && cr in mem && SameLits(d.lits, mem[cr].lits)
    ensures Settled(mem[cr := d], ws, t, j)
  {
    forall k | 0 <= k < j ensures TrueBelow(t, mem[cr := d][ws[k].cref].lits, t.DL()) {
      assert TrueBelow(t, mem[ws[k].cref].lits, t.DL());
    }
  }

  // The false watched literal is exchanged with the k-th one, which is not false.
  lemma VisitMove(mem: Memory, occs: map<Lit, seq<Watcher>>, t: TrailState, p: Lit, i: nat, j: nat, k: nat)
    requires Visit(mem, occs, t, p, i, j) && i < |occs[p]| && OccKeys(occs, |t.assigns|)
    requires Live(mem, occs[p][i].cref)
    requires var c := mem[occs[p][i].cref].lits;
             2 <= k < |c| && c[1] == Neg(p) && t.Val(c[0]) != True && t.Val(c[k]) != False
    ensures var cr := occs[p][i].cref;
            var c := mem[cr].lits;
            Neg(c[k]) in occs &&
            Visit(mem[cr := mem[cr].(lits := Exchanged(c, 1, k))],
                  occs[Neg(c[k]) := occs[Neg(c[k])] + [Watcher(cr, c[0])]], t, p, i + 1, j)
  {
    var cr := occs[p][i].cref;
    var c := mem[cr].lits;
    var d := mem[cr].(lits := Exchanged(c, 1, k));
    var q := Neg(c[k]);
    hide WatchOK, ReasonsOK, PropOK, TrailOK, Distinct, Settled;
    assert ClauseOK(c, |t.assigns|);
    SwapLits(c, 1, k, |t.assigns|);
    NotReason(mem, t, cr);
    ReplaceReasons(mem, t, cr, d);
    ReplaceDb(mem, |t.assigns|, cr, d);
    SamePropagated(t, c, d.lits, t.Pos(p.v), mem, cr);
    ReplaceProp(mem, t, t.Pos(p.v), cr, d);
    SettledReplace(mem, occs[p], t, j, cr, d);
    MoveCompacted(mem, occs, p, i, j, k, |t.assigns|);
  }

  lemma MapCommute<X, Y>(m: map<X, Y>, p: X, a: Y, b: Y, q: X, c: Y)
    requires p != q
    ensures m[p := a][p := b][q := c] == m[q := c][p := b]
  {
  }

  lemma MoveCompacted(mem: Memory, occs: map<Lit, seq<Watcher>>, p: Lit, i: nat, j: nat, k: nat, n: nat)
    requires p in occs && j <= i < |occs[p]| && Live(mem, occs[p][i].cref)
    requires WatchOK(mem, occs[p := Compacted(occs[p], i, j)], {})
    requires var c := mem[occs[p][i].cref].lits;
             ClauseOK(c, n) && 2 <= k < |c| && c[1] == Neg(p) && Neg(c[k]) in occs
    ensures var cr := occs[p][i].cref;
            var c := mem[cr].lits;
            var occs' := occs[Neg(c[k]) := occs[Neg(c[k])] + [Watcher(cr, c[0])]];
            && occs'[p] == occs[p]
            && WatchOK(mem[cr := mem[cr].(lits := Exchanged(c, 1, k))], occs'[p := Compacted(occs[p], i + 1, j)], {})
  {
    var cr := occs[p][i].cref;
    var c := mem[cr].lits;
    var q := Neg(c[k]);
    var es := Compacted(occs[p], i, j);
    hide WatchOK;
    assert es[j] == occs[p][i];
    MoveWatch(mem, occs[p := es], p, j, cr, k, n);
    assert Without(es, j) == Compacted(occs[p], i + 1, j);
    var occs' := occs[q := occs[q] + [Watcher(cr, c[0])]];
    MapCommute(occs, p, es, Without(es, j), q, occs[q] + [Watcher(cr, c[0])]);
  }

  // All other literals are false and the first is unassigned: it is enqueued.
  lemma VisitUnit(mem: Memory, occs: map<Lit, seq<Watcher>>, t: TrailState, p: Lit, i: nat, j: nat)
    requires Visit(mem, occs, t, p, i, j) && i < |occs[p]|
    requires Live(mem, occs[p][i].cref)
    requires var c := mem[occs[p][i].cref].lits;
             |c| >= 2 && c[1] == Neg(p) && t.Val(c[0]) == Undef && c[0].v < |t.assigns| &&
             forall k :: 1 <= k < |c| ==> t.Val(c[k]) == False
    ensures var cr := occs[p][i].cref;
            var c := mem[cr].lits;
            var u := Enqueued(t, c[0], cr);
            Derived(u, t) && Visit(mem, occs[p := occs[p][j := Watcher(cr, c[0])]], u, p, i + 1, j + 1)
  {
    var cr := occs[p][i].cref;
    var c := mem[cr].lits;
    var u := Enqueued(t, c[0], cr);
    var w := Watcher(cr, c[0]);
    hide WatchOK, ReasonsOK, PropOK, TrailOK, DbOK, Derived;
    VisitWatcher(mem, occs, t, p, i, j);
    FalseIsEarlier(t, c);
    EnqueueTrail(t, c[0], cr);
    EnqueueReasons(mem, t, c[0], cr);
    ExtendVal(t, u, p);
    ExtendProp(mem, t, u, t.Pos(p.v));
    TrueLitBelow(u, c, c[0]);
    SettledExtend(mem, occs[p], t, u, j);
    SettledStep(mem, occs[p], u, j, w);
    KeepWatch(mem, occs, p, i, j, w);
    assert occs[p := occs[p][j := w]][p] == occs[p][j := w];
  }

  lemma SettledStep(mem: Memory, ws: seq<Watcher>, t: TrailState, j: nat, w: Watcher)
    requires j < |ws| && Settled(mem, ws, t, j) && w.cref in mem && TrueBelow(t, mem[w.cref].lits, t.DL())
    ensures Settled(mem, ws[j := w], t, j + 1)
  {
  }

  lemma SettledExtend(mem: Memory, ws: seq<Watcher>, t: TrailState, u: TrailState, j: nat)
    requires j <= |ws| && Settled(mem, ws, t, j) && u.Extends(t)
    ensures Settled(mem, ws, u, j)
  {
    forall k | 0 <= k < j ensures TrueBelow(u, mem[ws[k].cref].lits, u.DL()) {
      ExtendTrueBelow(t, u, mem[ws[k].cref].lits, t.DL());
    }
  }

  lemma FalseIsEarlier(t: TrailState, c: seq<Lit>)
    requires TrailOK(t)
    ensures forall k :: 0 <= k < |c| && t.Val(c[k]) != Undef ==> t.Pos(c[k].v) < |t.trail|
  {
    forall k | 0 <= k < |c| && t.Val(c[k]) != Undef ensures t.Pos(c[k].v) < |t.trail| {
      assert t.Assigned(c[k].v);
    }
  }

  lemma VisitStart(mem: Memory, occs: map<Lit, seq<Watcher>>, t: TrailState, p: Lit)
    requires p in occs && t.Val(p) == True && CREF_UNDEF !in mem && t.LevelStart() <= t.Pos(p.v)
    requires TrailOK(t) && ReasonsOK(mem, t) && DbOK(mem, |t.assigns|)
    requires WatchOK(mem, occs, {}) && PropOK(mem, t, t.Pos(p.v))
    ensures Visit(mem, occs, t, p, 0, 0)
  {
    assert Compacted(occs[p], 0, 0) == occs[p];
    assert occs[p := occs[p]] == occs;
  }

  lemma VisitKey(occs: map<Lit, seq<Watcher>>, n: nat, p: Lit)
    requires OccKeys(occs, n) && p.v < n
    ensures p in occs
  {
  }

  lemma ShrinkKeys(occs: map<Lit, seq<Watcher>>, n: nat, p: Lit, ws: seq<Watcher>)
    requires OccKeys(occs, n) && p in occs
    ensures OccKeys(occs[p := ws], n)
  {
  }

  /** When the whole list has been visited, p has been propagated completely. */
  lemma VisitEnd(mem: Memory, occs: map<Lit, seq<Watcher>>, t: TrailState, p: Lit, j: nat)
    requires p in occs && Visit(mem, occs, t, p, |occs[p]|, j)
    ensures WatchOK(mem, occs[p := occs[p][..j]], {})
    ensures PropOK(mem, t, t.Pos(p.v) + 1)
  {
    var ws := occs[p][..j];
    assert Compacted(occs[p], |occs[p]|, j) == ws;
    forall cr | Live(mem, cr) ensures ClauseProp(t, mem[cr].lits, t.Pos(p.v) + 1) {
      var c := mem[cr].lits;
      assert ClauseOK(c, |t.assigns|) && ClauseProp(t, c, t.Pos(p.v)) && Watched(c, cr, occs[p := ws]);
      assert In(ws, cr) ==> TrueBelow(t, c, t.DL()) by {
        if k :| 0 <= k < |ws| && ws[k].cref == cr { assert occs[p][k] == ws[k]; }
      }
      WatchEnd(t, c, c[0], p);
      WatchEnd(t, c, c[1], p);
    }
  }

  lemma WatchEnd(t: TrailState, c: seq<Lit>, q: Lit, p: Lit)
    requires TrailOK(t) && t.Val(p) == True && t.LevelStart() <= t.Pos(p.v)
    requires WatchProp(t, c, q, t.Pos(p.v)) && (q == Neg(p) ==> TrueBelow(t, c, t.DL()))
    ensures WatchProp(t, c, q, t.Pos(p.v) + 1)
  {
    if t.Val(q) == False && t.Pos(q.v) == t.Pos(p.v) {
      assert t.Assigned(q.v) && t.Assigned(p.v);
      AtDL(t, p.v);
    }
  }

  // ---------- after a conflict ----------

  /** What is left of Visit once a conflict has been met: the current level is not completely
      propagated, the levels below are. */
  ghost predicate Interrupted(mem: Memory, occs: map<Lit, seq<Watcher>>, t: TrailState, p: Lit, i: nat, j: nat) {
    && p in occs && j <= i <= |occs[p]|
    && TrailOK(t) && ReasonsOK(mem, t) && DbOK(mem, |t.assigns|)
    && PropOK(mem, t, t.LevelStart())
    && WatchOK(mem, occs[p := Compacted(occs[p], i, j)], {})
  }

  lemma PropLess(mem: Memory, t: TrailState, limit: nat, less: nat)
    requires PropOK(mem, t, limit) && less <= limit
    ensures PropOK(mem, t, less)
  {
    forall cr | Live(mem, cr) ensures ClauseProp(t, mem[cr].lits, less) {
      assert ClauseProp(t, mem[cr].lits, limit);
    }
  }

  lemma InterruptedKeep(mem: Memory, occs: map<Lit, seq<Watcher>>, t: TrailState, p: Lit, i: nat, j: nat, w: Watcher)
    requires Interrupted(mem, occs, t, p, i, j) && i < |occs[p]|
    requires w.cref == occs[p][i].cref && WatcherOK(mem, w, p, false)
    ensures Interrupted(mem, occs[p := occs[p][j := w]], t, p, i + 1, j + 1)
  {
    KeepWatch(mem, occs, p, i, j, w);
  }

  lemma InterruptedCopy(mem: Memory, occs: map<Lit, seq<Watcher>>, t: TrailState, p: Lit, i: nat, j: nat)
    requires Interrupted(mem, occs, t, p, i, j) && i < |occs[p]|
    ensures Interrupted(mem, occs[p := occs[p][j := occs[p][i]]], t, p, i + 1, j + 1)
  {
    var ws := Compacted(occs[p], i, j);
    assert ListOK(mem, occs[p := ws][p], p, p in {});
    assert ws[j] == occs[p][i];
    InterruptedKeep(mem, occs, t, p, i, j, occs[p][i]);
  }

  lemma VisitConflict(mem: Memory, occs: map<Lit, seq<Watcher>>, t: TrailState, p: Lit, i: nat, j: nat)
    requires Visit(mem, occs, t, p, i, j)
    ensures Interrupted(mem, occs, t, p, i, j)
  {
    PropLess(mem, t, t.Pos(p.v), t.LevelStart());
  }

  lemma InterruptedEnd(mem: Memory, occs: map<Lit, seq<Watcher>>, t: TrailState, p: Lit, j: nat)
    requires p in occs && Interrupted(mem, occs, t, p, |occs[p]|, j)
    ensures WatchOK(mem, occs[p := occs[p][..j]], {})
  {
    assert Compacted(occs[p], |occs[p]|, j) == occs[p][..j];
  }
}
