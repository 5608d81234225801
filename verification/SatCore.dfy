/** The invariants of the solver's search state and the lemmas that say which step keeps which
    of them.  Everything here is about values: the classes pass their fields in. */
module SatCore {
  import opened Basics
  import opened SetSizes
  import opened SatTypes

  // ---------- the trail ----------

  predicate LevelOK(t: TrailState, v: Var) {
    var l := t.Lev(v);
    && l <= |t.lim|
    && (l > 0 ==> t.lim[l - 1] <= t.Pos(v))
    && (l < |t.lim| ==> t.Pos(v) < t.lim[l])
  }

  predicate LimOK(lim: seq<nat>, n: nat) {
    && (forall i :: 0 <= i < |lim| ==> lim[i] <= n)
    && (forall i, j :: 0 <= i < j < |lim| ==> lim[i] <= lim[j])
  }

  /** Trail and assignment describe each other, and every level is the slice of the trail
      between its two separators. */
  ghost predicate TrailOK(t: TrailState) {
    && |t.vardata| == |t.assigns|
    && |t.pos| == |t.assigns|
    && (forall i :: 0 <= i < |t.trail| ==> t.Val(t.trail[i]) == True && t.Pos(t.trail[i].v) == i)
    && LimOK(t.lim, |t.trail|)
    && (forall v :: t.Assigned(v) ==> t.Pos(v) < |t.trail| && t.trail[t.Pos(v)] == t.TrueLit(v) && LevelOK(t, v))
  }

  lemma LevelMono(t: TrailState, u: Var, v: Var)
    requires TrailOK(t) && t.Assigned(u) && t.Assigned(v) && t.Pos(u) <= t.Pos(v)
    ensures t.Lev(u) <= t.Lev(v)
  {
    assert LevelOK(t, u) && LevelOK(t, v);
  }

  // The first k variables of the trail are as many different variables.
  lemma {:induction false} TrailVars(t: TrailState, k: nat) returns (vs: set<Var>)
    requires TrailOK(t) && k <= |t.trail|
    ensures |vs| == k && vs <= AllBelow(|t.assigns|)
    ensures forall v :: v in vs ==> t.Pos(v) < k
  {
    vs := {};
    if k == 0 {
    } else {
      vs := TrailVars(t, k - 1);
      assert t.Val(t.trail[k - 1]) == True;
      vs := vs + {t.trail[k - 1].v};
    }
  }

  lemma TrailBound(t: TrailState)
    requires TrailOK(t)
    ensures |t.trail| <= |t.assigns|
  {
    var vs := TrailVars(t, |t.trail|);
    SubsetSize(vs, AllBelow(|t.assigns|));
  }

  lemma TrailLens(t: TrailState)
    requires TrailOK(t)
    ensures |t.vardata| == |t.pos| == |t.assigns|
  {
  }

  // ---------- reasons ----------

  /** Clause c forced p: p is its first literal and the others were falsified earlier. */
  ghost predicate Forced(t: TrailState, c: seq<Lit>, p: Lit, at: nat) {
    && |c| >= 2 && c[0] == p
    && forall k :: 1 <= k < |c| ==> t.Val(c[k]) == False && t.Pos(c[k].v) < at
  }

  ghost predicate ReasonOK(mem: Memory, t: TrailState, v: Var) {
    var r := t.Why(v);
    if r == CREF_UNDEF then
      // a decision opens its level; at level 0 it is a fact
      0 < t.Lev(v) <= |t.lim| ==> t.Pos(v) == t.lim[t.Lev(v) - 1]
    else
      Live(mem, r) && Forced(t, mem[r].lits, t.TrueLit(v), t.Pos(v))
  }

  ghost predicate ReasonsOK(mem: Memory, t: TrailState) {
    forall v :: t.Assigned(v) ==> ReasonOK(mem, t, v)
  }

  // ---------- the clause database ----------

  ghost predicate DbOK(mem: Memory, n: nat) {
    forall cr :: Live(mem, cr) ==> ClauseOK(mem[cr].lits, n)
  }

  // A clause is either live or marked as deleted.
  predicate MarksOK(mem: Memory) {
    forall cr :: cr in mem ==> mem[cr].mark <= 1
  }

  // ---------- watches ----------

  ghost predicate In(ws: seq<Watcher>, cr: CRef) {
    exists i :: 0 <= i < |ws| && ws[i].cref == cr
  }

  predicate Watches(c: seq<Lit>, l: Lit) {
    |c| >= 2 && (c[0] == Neg(l) || c[1] == Neg(l))
  }

  // A watcher of literal l: of a live clause that watches Neg(l), or left over in a dirty list.
  predicate WatcherOK(mem: Memory, w: Watcher, l: Lit, dirty: bool) {
    && w.cref in mem
    && (if mem[w.cref].mark == 0
        then Watches(mem[w.cref].lits, l) && w.blocker in mem[w.cref].lits
        else dirty)
  }

  predicate ListOK(mem: Memory, ws: seq<Watcher>, l: Lit, dirty: bool) {
    && (forall i :: 0 <= i < |ws| ==> WatcherOK(mem, ws[i], l, dirty))
    && (forall i, j :: 0 <= i < j < |ws| ==> ws[i].cref != ws[j].cref)
  }

  ghost predicate Watched(c: seq<Lit>, cr: CRef, occs: map<Lit, seq<Watcher>>) {
    && |c| >= 2
    && Neg(c[0]) in occs && In(occs[Neg(c[0])], cr)
    && Neg(c[1]) in occs && In(occs[Neg(c[1])], cr)
  }

  /** Every live clause is watched exactly at the negations of its first two literals. */
  ghost predicate WatchOK(mem: Memory, occs: map<Lit, seq<Watcher>>, dirty: set<Lit>) {
    && (forall l :: l in occs ==> ListOK(mem, occs[l], l, l in dirty))
    && (forall cr :: Live(mem, cr) ==> Watched(mem[cr].lits, cr, occs))
  }

  // ---------- propagation is complete ----------

  // Some literal of c is true at level lev or below.
  ghost predicate TrueBelow(t: TrailState, c: seq<Lit>, lev: nat) {
    exists p :: p in c && t.Val(p) == True && t.Lev(p.v) <= lev
  }

  ghost predicate WatchProp(t: TrailState, c: seq<Lit>, q: Lit, limit: nat) {
    t.Val(q) == False && t.Pos(q.v) < limit ==> TrueBelow(t, c, t.Lev(q.v))
  }

  ghost predicate ClauseProp(t: TrailState, c: seq<Lit>, limit: nat) {
    |c| >= 2 ==> WatchProp(t, c, c[0], limit) && WatchProp(t, c, c[1], limit)
  }

  /** A watched literal falsified before trail index limit sits in a clause that is true at
      no higher level. */
  ghost predicate PropOK(mem: Memory, t: TrailState, limit: nat) {
    forall cr :: Live(mem, cr) ==> ClauseProp(t, mem[cr].lits, limit)
  }

  // ---------- enqueueing ----------

  function Enqueued(t: TrailState, p: Lit, from: CRef): TrailState
    requires p.v < |t.assigns| == |t.vardata| == |t.pos|
  {
    TrailState(t.assigns[p.v := if p.neg then False else True],
               t.vardata[p.v := VarData(from, |t.lim|)],
               t.trail + [p], t.lim, t.pos[p.v := |t.trail|])
  }

  lemma EnqueueTrail(t: TrailState, p: Lit, from: CRef)
    requires TrailOK(t) && p.v < |t.assigns| && t.Val(p) == Undef
    ensures TrailOK(Enqueued(t, p, from)) && Enqueued(t, p, from).Extends(t)
    ensures from != CREF_UNDEF ==> Derived(Enqueued(t, p, from), t)
  {
    var u := Enqueued(t, p, from);
    forall v | t.Assigned(v) ensures u.Same(t, v) {
    }
    forall v | u.Assigned(v) ensures u.Pos(v) < |u.trail| && u.trail[u.Pos(v)] == u.TrueLit(v) && LevelOK(u, v) {
      if v != p.v { assert t.Assigned(v) && LevelOK(t, v); }
    }
    forall i | 0 <= i < |u.trail| ensures u.Val(u.trail[i]) == True && u.Pos(u.trail[i].v) == i {
      if i < |t.trail| { assert t.Val(t.trail[i]) == True; }
    }
  }

  lemma ExtendTrans(t: TrailState, u: TrailState, w: TrailState)
    requires w.Extends(u) && u.Extends(t)
    ensures w.Extends(t)
  {
    forall v | t.Assigned(v) ensures w.Same(t, v) {
      assert u.Same(t, v) && w.Same(u, v);
    }
  }

  /** u extends t by literals that were forced by clauses. */
  ghost predicate Derived(u: TrailState, t: TrailState) {
    u.Extends(t) && forall v :: u.Assigned(v) && !t.Assigned(v) ==> u.Why(v) != CREF_UNDEF
  }

  lemma DerivedRefl(t: TrailState)
    ensures Derived(t, t)
  {
  }

  lemma DerivedTrans(t: TrailState, u: TrailState, w: TrailState)
    requires Derived(w, u) && Derived(u, t)
    ensures Derived(w, t)
  {
    ExtendTrans(t, u, w);
    forall v | w.Assigned(v) && !t.Assigned(v) ensures w.Why(v) != CREF_UNDEF {
      if u.Assigned(v) { assert w.Same(u, v); }
    }
  }

  lemma DerivedLens(t: TrailState, u: TrailState)
    requires Derived(u, t)
    ensures |u.assigns| == |t.assigns| && u.lim == t.lim && |t.trail| <= |u.trail|
    ensures forall v :: 0 <= v < |u.assigns| && u.assigns[v] == Undef ==> t.assigns[v] == Undef
  {
    forall v | 0 <= v < |u.assigns| && t.assigns[v] != Undef ensures u.assigns[v] != Undef {
      assert t.Assigned(v) && u.Same(t, v);
    }
  }

  lemma DerivedVal(t: TrailState, u: TrailState, p: Lit)
    requires Derived(u, t) && t.Val(p) != Undef
    ensures u.Val(p) == t.Val(p) && u.Pos(p.v) == t.Pos(p.v) && u.Lev(p.v) == t.Lev(p.v)
    ensures |u.assigns| == |t.assigns| && u.lim == t.lim && |t.trail| <= |u.trail|
  {
    ExtendVal(t, u, p);
  }

  lemma ExtendVal(t: TrailState, u: TrailState, p: Lit)
    requires u.Extends(t) && t.Val(p) != Undef
    ensures u.Val(p) == t.Val(p) && u.Pos(p.v) == t.Pos(p.v) && u.Lev(p.v) == t.Lev(p.v) && u.Why(p.v) == t.Why(p.v)
  {
    assert t.Assigned(p.v);
    assert u.Same(t, p.v);
  }

  lemma ExtendForced(t: TrailState, u: TrailState, c: seq<Lit>, p: Lit, at: nat)
    requires u.Extends(t) && Forced(t, c, p, at)
    ensures Forced(u, c, p, at)
  {
    forall k | 1 <= k < |c| ensures u.Val(c[k]) == False && u.Pos(c[k].v) < at {
      ExtendVal(t, u, c[k]);
    }
  }

  lemma EnqueueReasons(mem: Memory, t: TrailState, p: Lit, from: CRef)
    requires TrailOK(t) && ReasonsOK(mem, t) && p.v < |t.assigns| && t.Val(p) == Undef
    requires if from == CREF_UNDEF then |t.lim| > 0 ==> t.lim[|t.lim| - 1] == |t.trail|
             else Live(mem, from) && Forced(t, mem[from].lits, p, |t.trail|)
    ensures ReasonsOK(mem, Enqueued(t, p, from))
  {
    var u := Enqueued(t, p, from);
    EnqueueTrail(t, p, from);
    forall v | u.Assigned(v) ensures ReasonOK(mem, u, v) {
      if v == p.v {
        if from != CREF_UNDEF { ExtendForced(t, u, mem[from].lits, p, |t.trail|); }
      } else {
        assert t.Assigned(v) && u.Same(t, v) && ReasonOK(mem, t, v);
        if t.Why(v) != CREF_UNDEF { ExtendForced(t, u, mem[t.Why(v)].lits, t.TrueLit(v), t.Pos(v)); }
      }
    }
  }

  lemma ExtendTrueBelow(t: TrailState, u: TrailState, c: seq<Lit>, lev: nat)
    requires u.Extends(t) && TrueBelow(t, c, lev)
    ensures TrueBelow(u, c, lev)
  {
    var p :| p in c && t.Val(p) == True && t.Lev(p.v) <= lev;
    ExtendVal(t, u, p);
  }

  lemma ExtendWatchProp(t: TrailState, u: TrailState, c: seq<Lit>, q: Lit, limit: nat)
    requires TrailOK(t) && TrailOK(u) && u.Extends(t) && limit <= |t.trail| && WatchProp(t, c, q, limit)
    ensures WatchProp(u, c, q, limit)
  {
    if u.Val(q) == False && u.Pos(q.v) < limit {
      assert u.Assigned(q.v);
      assert u.trail[u.Pos(q.v)] == u.TrueLit(q.v);
      assert t.trail[u.Pos(q.v)] == u.TrueLit(q.v);
      assert t.Val(u.TrueLit(q.v)) == True;
      ExtendVal(t, u, q);
      ExtendTrueBelow(t, u, c, t.Lev(q.v));
    }
  }

  lemma ExtendProp(mem: Memory, t: TrailState, u: TrailState, limit: nat)
    requires TrailOK(t) && TrailOK(u) && u.Extends(t) && limit <= |t.trail| && PropOK(mem, t, limit)
    ensures PropOK(mem, u, limit)
  {
    forall cr | Live(mem, cr) ensures ClauseProp(u, mem[cr].lits, limit) {
      assert ClauseProp(t, mem[cr].lits, limit);
      var c := mem[cr].lits;
      if |c| >= 2 {
        ExtendWatchProp(t, u, c, c[0], limit);
        ExtendWatchProp(t, u, c, c[1], limit);
      }
    }
  }

  // ---------- rewriting one clause in place ----------

  lemma ReplaceReasons(mem: Memory, t: TrailState, cr: CRef, d: Clause)
    requires ReasonsOK(mem, t)
    requires forall v :: t.Assigned(v) ==> t.Why(v) != cr
    ensures ReasonsOK(mem[cr := d], t)
  {
    forall v | t.Assigned(v) ensures ReasonOK(mem[cr := d], t, v) {
      assert ReasonOK(mem, t, v);
    }
  }

  // A clause whose first literal is not true is no reason.
  lemma NotReason(mem: Memory, t: TrailState, cr: CRef)
    requires TrailOK(t) && ReasonsOK(mem, t) && Live(mem, cr)
    requires |mem[cr].lits| >= 2 && t.Val(mem[cr].lits[0]) != True && cr != CREF_UNDEF
    ensures forall v :: t.Assigned(v) ==> t.Why(v) != cr
  {
    forall v | t.Assigned(v) ensures t.Why(v) != cr {
      assert ReasonOK(mem, t, v);
    }
  }

  lemma ReplaceProp(mem: Memory, t: TrailState, limit: nat, cr: CRef, d: Clause)
    requires PropOK(mem, t, limit) && ClauseProp(t, d.lits, limit)
    ensures PropOK(mem[cr := d], t, limit)
  {
    var mem' := mem[cr := d];
    forall x | Live(mem', x) ensures ClauseProp(t, mem'[x].lits, limit) {
      if x != cr { assert Live(mem, x); }
    }
  }

  lemma ReplaceDb(mem: Memory, n: nat, cr: CRef, d: Clause)
    requires DbOK(mem, n) && ClauseOK(d.lits, n)
    ensures DbOK(mem[cr := d], n)
  {
    var mem' := mem[cr := d];
    forall x | Live(mem', x) ensures ClauseOK(mem'[x].lits, n) {
      if x != cr { assert Live(mem, x); }
    }
  }

  lemma SwapSame(c: seq<Lit>, i: nat, j: nat)
    requires i < |c| && j < |c|
    ensures SameLits(Exchanged(c, i, j), c)
  {
    var d := Exchanged(c, i, j);
    forall p | p in c ensures p in d {
      var k :| 0 <= k < |c| && c[k] == p;
      assert d[if k == i then j else if k == j then i else k] == p;
    }
  }

  lemma SwapLits(c: seq<Lit>, i: nat, j: nat, n: nat)
    requires i < |c| && j < |c| && ClauseOK(c, n)
    ensures ClauseOK(Exchanged(c, i, j), n) && SameLits(Exchanged(c, i, j), c)
  {
    SwapSame(c, i, j);
  }

  // Exchanging the two watched literals changes no watch list.
  lemma SwapWatch(mem: Memory, occs: map<Lit, seq<Watcher>>, dirty: set<Lit>, cr: CRef, d: Clause)
    requires WatchOK(mem, occs, dirty) && Live(mem, cr)
    requires |mem[cr].lits| >= 2 && d.mark == 0 && d.lits == Exchanged(mem[cr].lits, 0, 1)
    requires SameLits(d.lits, mem[cr].lits)
    ensures WatchOK(mem[cr := d], occs, dirty)
  {
    var mem' := mem[cr := d];
    forall l | l in occs ensures ListOK(mem', occs[l], l, l in dirty) {
      assert ListOK(mem, occs[l], l, l in dirty);
      forall i | 0 <= i < |occs[l]| ensures WatcherOK(mem', occs[l][i], l, l in dirty) {
        assert WatcherOK(mem, occs[l][i], l, l in dirty);
      }
    }
    forall x | Live(mem', x) ensures Watched(mem'[x].lits, x, occs) {
      assert Live(mem, x) && Watched(mem[x].lits, x, occs);
    }
  }

  lemma ReblockIn(ws: seq<Watcher>, j: nat, w: Watcher, x: CRef)
    requires j < |ws| && w.cref == ws[j].cref
    ensures In(ws, x) ==> In(ws[j := w], x)
  {
    if i :| 0 <= i < |ws| && ws[i].cref == x {
      assert ws[j := w][i].cref == x;
    }
  }

  // A new blocker for one watcher.
  lemma ReblockWatch(mem: Memory, occs: map<Lit, seq<Watcher>>, dirty: set<Lit>, l: Lit, j: nat, w: Watcher)
    requires WatchOK(mem, occs, dirty) && l in occs && j < |occs[l]|
    requires w.cref == occs[l][j].cref && WatcherOK(mem, w, l, l in dirty)
    ensures WatchOK(mem, occs[l := occs[l][j := w]], dirty)
  {
    var occs' := occs[l := occs[l][j := w]];
    forall m | m in occs' ensures ListOK(mem, occs'[m], m, m in dirty) {
      assert ListOK(mem, occs[m], m, m in dirty);
    }
    forall x | Live(mem, x) ensures Watched(mem[x].lits, x, occs') {
      assert Watched(mem[x].lits, x, occs);
      ReblockIn(occs[l], j, w, x);
    }
  }

  // What a list amounts to while it is compacted in place: settled below j, still to be visited
  // from i on.
  function Compacted<X>(s: seq<X>, i: nat, j: nat): seq<X>
    requires j <= i <= |s|
  {
    s[..j] + s[i..]
  }

  function Without<T>(s: seq<T>, j: nat): seq<T>
    requires j < |s|
  {
    s[..j] + s[j + 1..]
  }

  lemma WithoutIn(ws: seq<Watcher>, j: nat, cr: CRef)
    requires j < |ws| && ws[j].cref != cr && In(ws, cr)
    ensures In(Without(ws, j), cr)
  {
    var i :| 0 <= i < |ws| && ws[i].cref == cr;
    assert Without(ws, j)[if i < j then i else i - 1].cref == cr;
  }

  lemma WithoutList(mem: Memory, ws: seq<Watcher>, j: nat, l: Lit, dirty: bool)
    requires j < |ws| && ListOK(mem, ws, l, dirty)
    ensures ListOK(mem, Without(ws, j), l, dirty)
    ensures !In(Without(ws, j), ws[j].cref)
  {
    var us := Without(ws, j);
    forall i | 0 <= i < |us| ensures us[i] == ws[if i < j then i else i + 1] {
    }
  }

  lemma PushIn(ws: seq<Watcher>, w: Watcher, x: CRef)
    ensures In(ws + [w], w.cref)
    ensures In(ws, x) ==> In(ws + [w], x)
  {
    assert (ws + [w])[|ws|] == w;
    if i :| 0 <= i < |ws| && ws[i].cref == x {
      assert (ws + [w])[i].cref == x;
    }
  }

  lemma PushList(mem: Memory, ws: seq<Watcher>, w: Watcher, l: Lit, dirty: bool)
    requires ListOK(mem, ws, l, dirty) && WatcherOK(mem, w, l, dirty) && !In(ws, w.cref)
    ensures ListOK(mem, ws + [w], l, dirty)
  {
  }

  lemma ReplaceList(mem: Memory, ws: seq<Watcher>, l: Lit, dirty: bool, cr: CRef, d: Clause)
    requires ListOK(mem, ws, l, dirty) && !In(ws, cr)
    ensures ListOK(mem[cr := d], ws, l, dirty)
  {
    forall i | 0 <= i < |ws| ensures WatcherOK(mem[cr := d], ws[i], l, dirty) {
      assert WatcherOK(mem, ws[i], l, dirty);
    }
  }

  lemma ReplaceListKept(mem: Memory, ws: seq<Watcher>, l: Lit, dirty: bool, cr: CRef, d: Clause)
    requires ListOK(mem, ws, l, dirty) && Live(mem, cr) && d.mark == 0
    requires Watches(mem[cr].lits, l) ==> Watches(d.lits, l)
    requires SameLits(d.lits, mem[cr].lits)
    ensures ListOK(mem[cr := d], ws, l, dirty)
  {
    forall i | 0 <= i < |ws| ensures WatcherOK(mem[cr := d], ws[i], l, dirty) {
      assert WatcherOK(mem, ws[i], l, dirty);
    }
  }

  // A live clause is in no list but those of its own watches.
  lemma NotWatching(mem: Memory, ws: seq<Watcher>, l: Lit, cr: CRef)
    requires ListOK(mem, ws, l, false) && Live(mem, cr) && !Watches(mem[cr].lits, l)
    ensures !In(ws, cr)
  {
    forall i | 0 <= i < |ws| ensures ws[i].cref != cr {
      assert WatcherOK(mem, ws[i], l, false);
    }
  }

  /** The watch of cr moves from literal p to the negation of its k-th literal. */
  lemma MoveWatch(mem: Memory, occs: map<Lit, seq<Watcher>>, p: Lit, j: nat, cr: CRef, k: nat, n: nat)
    requires WatchOK(mem, occs, {}) && Live(mem, cr) && ClauseOK(mem[cr].lits, n)
    requires p in occs && j < |occs[p]| && occs[p][j].cref == cr
    requires mem[cr].lits[1] == Neg(p) && 2 <= k < |mem[cr].lits| && Neg(mem[cr].lits[k]) in occs
    ensures var c := mem[cr].lits;
            var q := Neg(c[k]);
            q != p &&
            WatchOK(mem[cr := mem[cr].(lits := Exchanged(c, 1, k))],
                    occs[p := Without(occs[p], j)][q := occs[q] + [Watcher(cr, c[0])]], {})
  {
    var c := mem[cr].lits;
    var q := Neg(c[k]);
    var d := mem[cr].(lits := Exchanged(c, 1, k));
    var mem' := mem[cr := d];
    var w := Watcher(cr, c[0]);
    assert c[k] != c[1];
    var occs' := occs[p := Without(occs[p], j)][q := occs[q] + [w]];
    SwapLits(c, 1, k, n);
    NotWatching(mem, occs[q], q, cr);
    forall l | l in occs' ensures ListOK(mem', occs'[l], l, l in {}) {
      assert ListOK(mem, occs[l], l, l in {});
      if l == q {
        ReplaceList(mem, occs[q], q, false, cr, d);
        PushList(mem', occs[q], w, q, false);
      } else if l == p {
        WithoutList(mem, occs[p], j, p, false);
        ReplaceList(mem, Without(occs[p], j), p, false, cr, d);
      } else {
        ReplaceListKept(mem, occs[l], l, false, cr, d);
      }
    }
    forall x | Live(mem', x) ensures Watched(mem'[x].lits, x, occs') {
      MoveWatched(mem, occs, p, j, cr, k, n, x);
    }
  }

  lemma MoveWatched(mem: Memory, occs: map<Lit, seq<Watcher>>, p: Lit, j: nat, cr: CRef, k: nat, n: nat, x: CRef)
    requires WatchOK(mem, occs, {}) && Live(mem, cr) && ClauseOK(mem[cr].lits, n)
    requires p in occs && j < |occs[p]| && occs[p][j].cref == cr
    requires mem[cr].lits[1] == Neg(p) && 2 <= k < |mem[cr].lits| && Neg(mem[cr].lits[k]) in occs
    requires Live(mem, x)
    ensures var c := mem[cr].lits;
            var q := Neg(c[k]);
            Watched(if x == cr then Exchanged(c, 1, k) else mem[x].lits, x,
                    occs[p := Without(occs[p], j)][q := occs[q] + [Watcher(cr, c[0])]])
  {
    var c := mem[cr].lits;
    var q := Neg(c[k]);
    assert c[k] != c[1] && c[0] != c[1];
    var w := Watcher(cr, c[0]);
    var occs' := occs[p := Without(occs[p], j)][q := occs[q] + [w]];
    assert Watched(mem[x].lits, x, occs);
    PushIn(occs[q], w, x);
    if x != cr && In(occs[p], x) { WithoutIn(occs[p], j, x); }
  }
}
