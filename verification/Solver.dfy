/** The CDCL solver. */
module SatSolver {
  import opened Basics
  import opened SatTypes
  import opened SatCore
  import opened SatPropagate
  import opened ClauseAllocators
  import opened OccurrenceLists
  import opened OrderHeaps
  import opened SatLearn
  import opened SatMinimize
  import opened SatRedundancy
  import opened SatUip
  import opened SatActivity
  import opened SatFinal
  import opened SatDatabase
  import opened SatReloc
  import opened SatReduce
  import opened SatMeasure
  import opened SatSearch
  import opened SatAdd
  import opened LubySequence
  import opened Sorting
  import opened SatSteps

  // Activities above the limit are scaled down by the same factor.
  const RESCALE: real :=
      10000000000000000000000000000000000000000000000000000000000000000000000000000000000000000000000000000.0
  const CLAUSE_RESCALE: real := 100000000000000000000.0

  function Scaled(act: seq<real>): seq<real> {
    seq(|act|, v requires 0 <= v < |act| => act[v] / RESCALE)
  }

  lemma ScaledBumped(act0: seq<real>, inc0: real, act: seq<real>, inc: real, S: set<Var>)
    requires Bumped(act0, inc0, act, inc, S)
    ensures inc / RESCALE > 0.0 && Bumped(act0, inc0, Scaled(act), inc / RESCALE, S)
  {
    BumpedScaled(act0, inc0, act, inc, S, Scaled(act), RESCALE);
  }

  // The activities of the clauses of cs are scaled down.
  function Rescaled(act: map<CRef, real>, cs: seq<CRef>): map<CRef, real> {
    map cr | cr in act :: if cr in cs then act[cr] / CLAUSE_RESCALE else act[cr]
  }

  lemma RescaledNext(act: map<CRef, real>, cs: seq<CRef>, i: nat)
    requires i < |cs| && cs[i] in act && Different(cs)
    ensures var act' := Rescaled(act, cs[..i]);
            cs[i] in act' && Rescaled(act, cs[..i + 1]) == act'[cs[i] := act'[cs[i]] / CLAUSE_RESCALE]
  {
    assert cs[..i + 1] == cs[..i] + [cs[i]];
    assert cs[i] !in cs[..i];
  }

  lemma RescaledEnds(act: map<CRef, real>, cs: seq<CRef>)
    ensures Rescaled(act, cs[..0]) == act && cs[..|cs|] == cs
  {
  }

  lemma RescaledListed(act: map<CRef, real>, cs: seq<CRef>)
    requires forall i :: 0 <= i < |cs| ==> cs[i] in act
    ensures var act' := Rescaled(act, cs);
      forall i :: 0 <= i < |cs| ==> cs[i] in act' && act'[cs[i]] == act[cs[i]] / CLAUSE_RESCALE
  {
  }

  // Scaling all activities keeps every comparison.
  lemma ScaledOrder(h: seq<nat>, act: seq<real>, act': seq<real>, k: nat)
    requires OrderedBut(h, act, k) && |act'| == |act|
    requires forall v :: 0 <= v < |act| ==> act'[v] == act[v] / RESCALE
    ensures OrderedBut(h, act', k)
  {
    forall x: nat, y: nat | Act(act, x) >= Act(act, y) ensures Act(act', x) >= Act(act', y) {
    }
  }

  // A more active entry can only come before its parent.
  lemma BumpedOrder(h: seq<nat>, idx: seq<int>, act: seq<real>, v: nat, a: real)
    requires Ordered(h, act) && Inverse(h, idx) && v < |act| && a >= act[v]
    requires v < |idx| && idx[v] >= 0
    ensures OrderedBut(h, act[v := a], idx[v])
  {
    var act' := act[v := a];
    forall i {:trigger Parent(i)} | 0 < i < |h| && i != idx[v]
      ensures Act(act', h[Parent(i)]) >= Act(act', h[i])
    {
    }
  }

  lemma UnheapedOrder(h: seq<nat>, idx: seq<int>, act: seq<real>, v: nat, a: real)
    requires Ordered(h, act) && Inverse(h, idx) && v < |act|
    requires v < |idx| ==> idx[v] < 0
    ensures Ordered(h, act[v := a])
  {
    assert v !in h;
  }

  class Solver {
    const ca: ClauseAllocator
    const watches: OccLists
    const order: OrderHeap

    // parameters
    var phaseSaving: nat
    var ccminMode: nat
    var rndPol: bool
    var removeSatisfiedToo: bool
    var randomVarFreq: real
    var garbageFrac: real
    var varDecay: real
    var clauseDecay: real
    var lubyRestart: bool
    var restartFirst: nat
    var restartInc: real
    var limited: bool              // a budget is set, or an interrupt may come

    var ok: bool
    var clauses: seq<CRef>
    var learnts: seq<CRef>
    var claInc: real
    var activity: seq<real>
    var varInc: real
    var assigns: seq<LBool>
    var polarity: seq<bool>
    var decision: seq<bool>
    var trail: seq<Lit>
    var trailLim: seq<nat>
    var vardata: seq<VarData>
    var qhead: nat
    var assumptions: seq<Lit>
    var seen: seq<bool>
    var analyzeStack: seq<Lit>
    var analyzeToclear: seq<Lit>
    var model: seq<LBool>
    var conflict: seq<Lit>

    ghost var pos: seq<nat>        // the trail index of each assigned variable
    ghost var added: Formula       // every clause ever passed to AddClause

    constructor ()
      ensures Valid() && ok && added == {} && assigns == [] && decision == [] && restartInc > 1.0 && restartFirst >= 1
      ensures !limited
      ensures fresh(ca) && fresh(watches) && fresh(order)
    {
      ca := new ClauseAllocator();
      watches := new OccLists();
      order := new OrderHeap();
      phaseSaving, ccminMode, rndPol, removeSatisfiedToo := 2, 2, false, true;
      garbageFrac, varDecay, clauseDecay, randomVarFreq := 0.20, 0.95, 0.999, 0.0;
      lubyRestart, restartFirst, restartInc, limited := true, 100, 2.0, false;
      ok, clauses, learnts, claInc, activity, varInc := true, [], [], 1.0, [], 1.0;
      assigns, polarity, decision, trail, trailLim, vardata, qhead := [], [], [], [], [], [], 0;
      assumptions, seen, analyzeStack, analyzeToclear, model, conflict := [], [], [], [], [], [];
      pos, added := [], {};
      new;
      InitialInv();
    }

    lemma InitialInv()
      requires ca.Valid() && ca.mem == map[] && ca.fwd == map[] && ca.sz == 0 && ca.wasted == 0
      requires watches.Valid() && watches.occs == map[] && watches.dirty == {} && order.Valid() && order.heap == []
      requires T() == TrailState([], [], [], [], []) && clauses == [] && learnts == [] && qhead == 0 && added == {}
      requires ok && claInc > 0.0 && varInc > 0.0 && activity == [] && decision == [] && seen == [] && polarity == []
      requires varDecay > 0.0 && clauseDecay > 0.0
      ensures Valid()
    {
      hide Inv, StateOK;
      InitialState();
      StateGivesInv();
      ListedIsInv();
    }

    // ---------- views and invariants ----------

    ghost function T(): TrailState
      reads `assigns, `vardata, `trail, `trailLim, `pos
    {
      TrailState(assigns, vardata, trail, trailLim, pos)
    }

    function Value(p: Lit): LBool
      requires p.v < |assigns|
      reads `assigns, `vardata, `trail, `trailLim, `pos
      ensures Value(p) == T().Val(p)
    {
      Flip(assigns[p.v], p.neg)
    }

    // What holds at every point of a propagation.
    ghost predicate BaseInv()
      reads `assigns, `vardata, `trail, `trailLim, `pos, `qhead, ca, watches
    {
      && ca.Valid() && ca.fwd == map[] && watches.Valid() && OccKeys(watches.occs, |assigns|)
      && TrailOK(T()) && ReasonsOK(ca.mem, T()) && DbOK(ca.mem, |assigns|)
      && T().LevelStart() <= qhead <= |trail|
    }

    ghost predicate SearchInv()
      reads `assigns, `vardata, `trail, `trailLim, `pos, `qhead, ca, watches
    {
      && BaseInv()
      && WatchOK(ca.mem, watches.occs, watches.dirty)
      && PropOK(ca.mem, T(), qhead)
    }

    // ---------- the order of branching ----------

    ghost predicate HeapInv()
      reads `activity, `varInc, order
    {
      && order.Valid() && Ordered(order.heap, activity) && varInc > 0.0
      && forall v: nat :: order.InHeap(v) ==> v < |activity|
    }

    /** Every unassigned decision variable, except perhaps x, is in the heap. */
    ghost predicate OrderBut(x: int)
      reads `activity, `varInc, `decision, `assigns, order
    {
      && HeapInv() && |activity| == |decision| == |assigns|
      && (forall v :: 0 <= v < |assigns| && decision[v] ==> v < |order.indices|)
      && (forall v :: 0 <= v < |assigns| && v != x && decision[v] && assigns[v] == Undef ==> order.InHeap(v))
    }

    ghost predicate OrderInv()
      reads `activity, `varInc, `decision, `assigns, order
    {
      OrderBut(-1)
    }

    method InsertVarOrder(x: Var)
      requires HeapInv() && x < |activity| && x < |decision|
      modifies order
      ensures HeapInv() && |order.indices| >= |old(order.indices)|
      ensures forall v :: order.InHeap(v) <==> old(order.InHeap(v)) || (v == x && decision[x])
    {
      if !order.InHeap(x) && decision[x] {
        order.Insert(activity, x);
      }
    }

    method VarBumpActivity(v: Var)
      requires HeapInv() && v < |activity|
      modifies `activity, `varInc, order
      ensures HeapInv() && order.SameEntries()
      ensures var bumped := old(activity)[v := old(activity)[v] + old(varInc)];
              if bumped[v] > RESCALE then activity == Scaled(bumped) && varInc == old(varInc) / RESCALE
              else activity == bumped && varInc == old(varInc)
      ensures Bumped(old(activity), old(varInc), activity, varInc, {v})
    {
      hide Bumped, Scaled;
      ghost var act, inc := activity, varInc;
      BumpedOne(act, inc, v);
      var a := activity[v] + varInc;
      if order.InHeap(v) {
        BumpedOrder(order.heap, order.indices, activity, v, a);
      } else {
        UnheapedOrder(order.heap, order.indices, activity, v, a);
      }
      ghost var k := if order.InHeap(v) then order.indices[v] else |order.heap|;
      activity := activity[v := a];
      if activity[v] > RESCALE {
        ScaledBumped(act, inc, activity, varInc, {v});
        RescaleActivities(k);
      }
      if order.InHeap(v) {
        order.Decrease(activity, v);
      }
    }

    method RescaleActivities(ghost k: nat)
      requires OrderedBut(order.heap, activity, k) && varInc > 0.0
      modifies `activity, `varInc
      ensures OrderedBut(order.heap, activity, k) && varInc > 0.0
      ensures activity == Scaled(old(activity)) && varInc == old(varInc) / RESCALE
    {
      ghost var act := activity;
      for i := 0 to |activity|
        invariant |activity| == |act| && varInc == old(varInc)
        invariant forall x :: 0 <= x < |act| ==> activity[x] == if x < i then act[x] / RESCALE else act[x]
      {
        activity := activity[i := activity[i] / RESCALE];
      }
      ScaledOrder(order.heap, act, activity, k);
      varInc := varInc / RESCALE;
    }

    // ---------- propagation ----------

    method UncheckedEnqueue(p: Lit, from: CRef)
      requires p.v < |assigns| == |vardata| == |pos| && T().Val(p) == Undef
      modifies `assigns, `vardata, `trail, `pos
      ensures T() == Enqueued(old(T()), p, from)
    {
      assigns := assigns[p.v := if p.neg then False else True];
      vardata := vardata[p.v := VarData(from, |trailLim|)];
      pos := pos[p.v := |trail|];
      trail := trail + [p];
    }

    // The first literal from index 2 on that is not false.
    method FindWatch(c: seq<Lit>) returns (k: nat)
      requires |c| >= 2 && InRange(c, |assigns|)
      ensures 2 <= k <= |c|
      ensures k < |c| ==> T().Val(c[k]) != False
      ensures forall m :: 2 <= m < k ==> T().Val(c[m]) == False
    {
      k := 2;
      while k < |c| && Value(c[k]) == False
        invariant 2 <= k <= |c|
        invariant forall m :: 2 <= m < k ==> T().Val(c[m]) == False
      {
        k := k + 1;
      }
    }

    // Visiting the i-th watcher of p, or interrupted by a conflict.
    ghost predicate Visiting(p: Lit, i: nat, j: nat, confl: CRef)
      reads this, ca, watches
    {
      && ca.Valid() && watches.Valid() && OccKeys(watches.occs, |assigns|)
      && (if confl == CREF_UNDEF then
            Visit(ca.mem, watches.occs, T(), p, i, j) && qhead == T().Pos(p.v) + 1
          else
            Interrupted(ca.mem, watches.occs, T(), p, i, j) && Conflict(confl) && qhead == |trail|)
    }

    // A live clause all of whose literals are false, one of them at the current level.
    ghost predicate Conflict(confl: CRef)
      reads this, ca
    {
      && Live(ca.mem, confl)
      && (forall q :: q in ca.mem[confl].lits ==> T().Val(q) == False)
      && (exists q :: q in ca.mem[confl].lits && T().Lev(q.v) == T().DL())
    }

    // *j++ = w
    method KeepVisited(p: Lit, i: nat, j: nat, w: Watcher)
      requires Visiting(p, i, j, CREF_UNDEF) && i < |watches.occs[p]|
      requires w.cref == watches.occs[p][i].cref && WatcherOK(ca.mem, w, p, false)
      requires TrueBelow(T(), ca.mem[w.cref].lits, T().DL())
      modifies watches`occs
      ensures Visiting(p, i + 1, j + 1, CREF_UNDEF)
      ensures p in watches.occs && |watches.occs[p]| == |old(watches.occs)[p]|
    {
      VisitKeep(ca.mem, watches.occs, T(), p, i, j, w);
      watches.Put(p, j, w);
    }

    ghost predicate FalseWatchAt1(p: Lit, i: nat)
      requires p in watches.occs && i < |watches.occs[p]|
      reads this, ca, watches
    {
      var cr := watches.occs[p][i].cref;
      && Live(ca.mem, cr) && ClauseOK(ca.mem[cr].lits, |assigns|)
      && ca.mem[cr].lits[1] == Neg(p)
    }

    // The new watch is the k-th literal.
    method MoveVisited(p: Lit, i: nat, j: nat, k: nat)
      requires Visiting(p, i, j, CREF_UNDEF) && i < |watches.occs[p]| && FalseWatchAt1(p, i)
      requires var c := ca.mem[watches.occs[p][i].cref].lits;
               2 <= k < |c| && T().Val(c[0]) != True && T().Val(c[k]) != False
      modifies ca`mem, watches`occs
      ensures Visiting(p, i + 1, j, CREF_UNDEF) && SameDb(ca.mem, old(ca.mem))
      ensures p in watches.occs && |watches.occs[p]| == |old(watches.occs)[p]|
    {
      hide WatchOK, PropOK, ReasonsOK, DbOK, TrailOK, Settled;
      var cr := watches.occs[p][i].cref;
      var w := Watcher(cr, ca.mem[cr].lits[0]);
      VisitMove(ca.mem, watches.occs, T(), p, i, j, k);
      SameDbSwap(ca.mem, cr, 1, k);
      ca.SwapLits(cr, 1, k);
      assert Neg(ca.mem[cr].lits[1]) != p;
      watches.Push(Neg(ca.mem[cr].lits[1]), w);
    }

    // The clause is unit under the assignment.
    method EnqueueVisited(p: Lit, i: nat, j: nat)
      requires Visiting(p, i, j, CREF_UNDEF) && i < |watches.occs[p]| && FalseWatchAt1(p, i)
      requires var c := ca.mem[watches.occs[p][i].cref].lits;
               T().Val(c[0]) == Undef && forall k :: 1 <= k < |c| ==> T().Val(c[k]) == False
      modifies `assigns, `vardata, `trail, `pos, watches`occs
      ensures Visiting(p, i + 1, j + 1, CREF_UNDEF) && Derived(T(), old(T()))
      ensures p in watches.occs && |watches.occs[p]| == |old(watches.occs)[p]|
    {
      hide WatchOK, PropOK, ReasonsOK, DbOK, TrailOK, Settled, Distinct, LevelOK;
      ghost var t := T();
      VisitFacts(ca.mem, watches.occs, t, p, i, j);
      var cr := watches.occs[p][i].cref;
      var first := ca.mem[cr].lits[0];
      VisitUnit(ca.mem, watches.occs, T(), p, i, j);
      watches.Put(p, j, Watcher(cr, first));
      UncheckedEnqueue(first, cr);
      ExtendVal(t, T(), p);
    }

    // The clause is falsified.
    method ConflictVisited(p: Lit, i: nat, j: nat) returns (confl: CRef)
      requires Visiting(p, i, j, CREF_UNDEF) && i < |watches.occs[p]| && FalseWatchAt1(p, i)
      requires var c := ca.mem[watches.occs[p][i].cref].lits;
               forall k :: 0 <= k < |c| ==> T().Val(c[k]) == False
      modifies `qhead, watches`occs
      ensures confl != CREF_UNDEF && Visiting(p, i + 1, j + 1, confl)
      ensures p in watches.occs && |watches.occs[p]| == |old(watches.occs)[p]|
    {
      hide WatchOK, PropOK, ReasonsOK, DbOK, Distinct, Settled;
      confl := watches.occs[p][i].cref;
      var w := Watcher(confl, ca.mem[confl].lits[0]);
      VisitConflict(ca.mem, watches.occs, T(), p, i, j);
      InterruptedKeep(ca.mem, watches.occs, T(), p, i, j, w);
      AtDL(T(), p.v);
      assert ca.mem[confl].lits[1] in ca.mem[confl].lits;
      watches.Put(p, j, w);
      qhead := |trail|;
    }

    // Visits a clause whose blocker is not true.
    method VisitClause(p: Lit, i: nat, j: nat) returns (confl: CRef, j': nat)
      requires Visiting(p, i, j, CREF_UNDEF) && i < |watches.occs[p]| && FalseWatchAt1(p, i)
      requires T().Val(watches.occs[p][i].blocker) != True
      modifies `assigns, `vardata, `trail, `pos, `qhead, ca`mem, watches`occs
      ensures j <= j' <= i + 1 && Visiting(p, i + 1, j', confl)
      ensures Derived(T(), old(T())) && SameDb(ca.mem, old(ca.mem))
      ensures p in watches.occs && |watches.occs[p]| == |old(watches.occs)[p]|
    {
      hide Visit, Interrupted, Distinct, TrailOK, Derived, SameDb;
      DerivedRefl(T());
      SameDbRefl(ca.mem);
      VisitFacts(ca.mem, watches.occs, T(), p, i, j);
      confl := CREF_UNDEF;
      j' := j + 1;
      var blocker := watches.occs[p][i].blocker;
      var cr := watches.occs[p][i].cref;
      var c := ca.mem[cr].lits;
      var first := c[0];
      if first != blocker && Value(first) == True {
        TrueLitBelow(T(), c, first);
        KeepVisited(p, i, j, Watcher(cr, first));
        return;
      }
      var k := FindWatch(c);
      assert T().Val(c[1]) == False;
      if k < |c| {
        MoveVisited(p, i, j, k);
        j' := j;
      } else if Value(first) == False {
        confl := ConflictVisited(p, i, j);
      } else {
        EnqueueVisited(p, i, j);
      }
    }

    // The blocker of the visited watcher is true: the clause is left alone.
    method SkipVisited(p: Lit, i: nat, j: nat)
      requires Visiting(p, i, j, CREF_UNDEF) && i < |watches.occs[p]|
      requires T().Val(watches.occs[p][i].blocker) == True
      modifies watches`occs
      ensures Visiting(p, i + 1, j + 1, CREF_UNDEF)
      ensures p in watches.occs && |watches.occs[p]| == |old(watches.occs)[p]|
    {
      hide WatchOK, PropOK, ReasonsOK, DbOK, TrailOK, Settled;
      var w := watches.occs[p][i];
      VisitWatcher(ca.mem, watches.occs, T(), p, i, j);
      VisitFacts(ca.mem, watches.occs, T(), p, i, j);
      TrueLitBelow(T(), ca.mem[w.cref].lits, w.blocker);
      KeepVisited(p, i, j, w);
    }

    // Makes sure the false literal of the visited clause is at index 1.
    method NormalizeVisited(p: Lit, i: nat, j: nat)
      requires Visiting(p, i, j, CREF_UNDEF) && i < |watches.occs[p]|
      modifies ca`mem
      ensures Visiting(p, i, j, CREF_UNDEF) && FalseWatchAt1(p, i) && SameDb(ca.mem, old(ca.mem))
    {
      hide WatchOK, PropOK, ReasonsOK, DbOK, TrailOK, Settled;
      var cr := watches.occs[p][i].cref;
      VisitWatcher(ca.mem, watches.occs, T(), p, i, j);
      VisitFacts(ca.mem, watches.occs, T(), p, i, j);
      if ca.mem[cr].lits[0] == Neg(p) {
        VisitSwap(ca.mem, watches.occs, T(), p, i, j, cr);
        SameDbSwap(ca.mem, cr, 0, 1);
        ca.SwapLits(cr, 0, 1);
        VisitWatcher(ca.mem, watches.occs, T(), p, i, j);
      }
    }

    // One iteration of the propagation loop.
    method VisitNext(p: Lit, i: nat, j: nat) returns (confl: CRef, j': nat)
      requires Visiting(p, i, j, CREF_UNDEF) && i < |watches.occs[p]|
      modifies `assigns, `vardata, `trail, `pos, `qhead, ca`mem, watches`occs
      ensures j <= j' <= i + 1 && Visiting(p, i + 1, j', confl)
      ensures Derived(T(), old(T())) && SameDb(ca.mem, old(ca.mem))
      ensures p in watches.occs && |watches.occs[p]| == |old(watches.occs)[p]|
    {
      hide Visit, Interrupted, Distinct, TrailOK;
      VisitFacts(ca.mem, watches.occs, T(), p, i, j);
      VisitWatcher(ca.mem, watches.occs, T(), p, i, j);
      if Value(watches.occs[p][i].blocker) == True {
        SkipVisited(p, i, j);
        confl, j' := CREF_UNDEF, j + 1;
      } else {
        NormalizeVisited(p, i, j);
        ghost var mem := ca.mem;
        confl, j' := VisitClause(p, i, j);
        SameDbTrans(ca.mem, mem, old(ca.mem));
      }
    }

    // Copies the remaining watchers after a conflict.
    method CopyRest(p: Lit, i: nat, j: nat, confl: CRef) returns (j': nat)
      requires confl != CREF_UNDEF && Visiting(p, i, j, confl)
      modifies watches`occs
      ensures p in watches.occs && |watches.occs[p]| == |old(watches.occs)[p]|
      ensures Visiting(p, |watches.occs[p]|, j', confl)
    {
      hide WatchOK, PropOK, ReasonsOK, DbOK, TrailOK;
      var k: nat := i;
      j' := j;
      while k < |watches.occs[p]|
        invariant Visiting(p, k, j', confl) && |watches.occs[p]| == |old(watches.occs)[p]|
      {
        InterruptedCopy(ca.mem, watches.occs, T(), p, k, j');
        watches.Put(p, j', watches.occs[p][k]);
        k, j' := k + 1, j' + 1;
      }
    }

    // The loop over the watchers of p.
    method VisitAll(p: Lit) returns (confl: CRef, j: nat)
      requires Visiting(p, 0, 0, CREF_UNDEF)
      modifies `assigns, `vardata, `trail, `pos, `qhead, ca`mem, watches`occs
      ensures p in watches.occs && Visiting(p, |watches.occs[p]|, j, confl)
      ensures Derived(T(), old(T())) && SameDb(ca.mem, old(ca.mem))
    {
      hide Visit, Interrupted, TrailOK, Conflict, Derived;
      DerivedRefl(T());
      VisitFacts(ca.mem, watches.occs, T(), p, 0, 0);
      confl, j := CREF_UNDEF, 0;
      var i: nat, end := 0, |watches.occs[p]|;
      while i != end
        invariant i <= end && p in watches.occs && |watches.occs[p]| == end
        invariant Visiting(p, i, j, confl) && (confl != CREF_UNDEF ==> i == end)
        invariant Derived(T(), old(T())) && SameDb(ca.mem, old(ca.mem))
      {
        ghost var t, mem := T(), ca.mem;
        confl, j := VisitNext(p, i, j);
        DerivedTrans(old(T()), t, T());
        SameDbTrans(ca.mem, mem, old(ca.mem));
        i := i + 1;
        if confl != CREF_UNDEF {
          j := CopyRest(p, i, j, confl);
          i := end;
        }
      }
    }

    // Propagates p, the last literal taken from the trail.
    method PropagateLit(p: Lit) returns (confl: CRef)
      requires BaseInv() && WatchOK(ca.mem, watches.occs, {}) && T().LevelStart() < qhead
      requires trail[qhead - 1] == p && PropOK(ca.mem, T(), qhead - 1)
      modifies `assigns, `vardata, `trail, `pos, `qhead, ca`mem, watches`occs
      ensures BaseInv() && WatchOK(ca.mem, watches.occs, {})
      ensures Derived(T(), old(T())) && SameDb(ca.mem, old(ca.mem))
      ensures Propagated(confl) && (confl == CREF_UNDEF ==> qhead == old(qhead))
      ensures |assigns| == |old(assigns)| && old(qhead) <= qhead
    {
      hide WatchOK, PropOK, ReasonsOK, DbOK, TrailOK, SameDb, Conflict, Derived, OccKeys;
      TrailLit(T(), qhead - 1);
      VisitKey(watches.occs, |assigns|, p);
      VisitStart(ca.mem, watches.occs, T(), p);
      var j;
      confl, j := VisitAll(p);
      DerivedVal(old(T()), T(), p);
      ShrinkKeys(watches.occs, |assigns|, p, watches.occs[p][..j]);
      if confl == CREF_UNDEF {
        VisitEnd(ca.mem, watches.occs, T(), p, j);
      } else {
        InterruptedEnd(ca.mem, watches.occs, T(), p, j);
      }
      watches.Shrink(p, j);
    }

    /** Nothing is left to propagate below qhead; or a clause is falsified at the current level
        and the levels below are propagated. */
    ghost predicate Propagated(confl: CRef)
      reads this, ca
    {
      if confl == CREF_UNDEF then PropOK(ca.mem, T(), qhead)
      else Conflict(confl) && qhead == |trail| && PropOK(ca.mem, T(), T().LevelStart())
    }

    /** Propagates all enqueued facts, or finds a falsified clause. */
    method Propagate() returns (confl: CRef)
      requires SearchInv() && MarksOK(ca.mem)
      modifies `assigns, `vardata, `trail, `pos, `qhead, ca`mem, watches
      ensures BaseInv() && WatchOK(ca.mem, watches.occs, {}) && watches.dirty == {} && watches.dirties == []
      ensures Derived(T(), old(T())) && SameDb(ca.mem, old(ca.mem))
      ensures Propagated(confl) && qhead == |trail|
      ensures old(qhead) == |old(trail)| ==> confl == CREF_UNDEF && T() == old(T())
    {
      hide WatchOK, PropOK, ReasonsOK, DbOK, TrailOK, SameDb, Conflict, OccKeys, Derived;
      confl := CREF_UNDEF;
      CleanWatch(ca.mem, watches.occs, watches.dirty);
      CleanKeys(ca.mem, watches.occs, watches.dirty, |assigns|);
      watches.CleanAll(ca.mem);
      SameDbRefl(ca.mem);
      DerivedRefl(T());
      while qhead < |trail|
        invariant BaseInv() && WatchOK(ca.mem, watches.occs, {}) && watches.dirty == {} && watches.dirties == []
        invariant Propagated(confl) && (confl != CREF_UNDEF ==> qhead == |trail|)
        invariant |assigns| == |old(assigns)|
        invariant Derived(T(), old(T())) && SameDb(ca.mem, old(ca.mem))
        invariant old(qhead) == |old(trail)| ==> qhead == |trail| && confl == CREF_UNDEF && T() == old(T())
        decreases |assigns| - qhead
      {
        ghost var t, mem := T(), ca.mem;
        var p := trail[qhead];
        qhead := qhead + 1;
        confl := PropagateLit(p);
        DerivedTrans(old(T()), t, T());
        SameDbTrans(ca.mem, mem, old(ca.mem));
        TrailBound(T());
      }
    }

    // ---------- conflict analysis ----------

    // What the analysis relies on and does not change.
    ghost predicate TrailBase()
      reads `assigns, `vardata, `trail, `trailLim, `pos, `seen, `activity, `added, ca`mem
    {
      && TrailOK(T()) && ReasonsOK(ca.mem, T()) && DbOK(ca.mem, |assigns|) && Sound(added, ca.mem, T())
      && |vardata| == |seen| == |activity| == |assigns|
    }

    ghost predicate AnalysisBase()
      reads `assigns, `vardata, `trail, `trailLim, `pos, `seen, `activity, `added, ca`mem
    {
      TrailBase() && T().DL() > 0
    }

    // Literals of c from start on are false, and assigned before trail index bound.
    ghost predicate Antecedents(c: seq<Lit>, start: nat, bound: nat)
      reads `assigns, `vardata, `trail, `trailLim, `pos
    {
      forall k :: start <= k < |c| ==> T().Val(c[k]) == False && T().Pos(c[k].v) < bound
    }

    // Marks the literals of c from start on; the new ones below the current level join out.
    method MarkClause(c: seq<Lit>, start: nat, out0: seq<Lit>, pathC0: nat, ghost bound: nat)
      returns (out: seq<Lit>, pathC: nat)
      requires AnalysisBase() && HeapInv() && start <= |c| && Antecedents(c, start, bound)
      requires Collecting(T(), seen, out0, pathC0, bound)
      modifies `seen, `activity, `varInc, order
      ensures AnalysisBase() && HeapInv() && Collecting(T(), seen, out, pathC, bound)
      ensures MarkedMore(old(seen), seen) && AllMarked(T(), seen, c, start) && MarkedBy(T(), old(seen), seen, c, start)
      ensures Bumped(old(activity), old(varInc), activity, varInc, Fresh(old(seen), seen))
      ensures order.SameEntries()
    {
      hide TrailOK, ReasonsOK, DbOK, Sound, Collecting, MarkedBy, Bumped, Fresh;
      out, pathC := out0, pathC0;
      FreshNone(seen);
      BumpedNone(activity, varInc);
      MarkedByNone(T(), seen, c, start);
      for j := start to |c|
        invariant AnalysisBase() && HeapInv() && Collecting(T(), seen, out, pathC, bound)
        invariant MarkedMore(old(seen), seen) && AllMarked(T(), seen, c[..j], start)
        invariant MarkedBy(T(), old(seen), seen, c[..j], start)
        invariant Bumped(old(activity), old(varInc), activity, varInc, Fresh(old(seen), seen))
        invariant order.SameEntries()
      {
        var q := c[j];
        assert T().Val(q) == False;
        MarkedByNext(T(), old(seen), seen, c, start, j);
        if !seen[q.v] && vardata[q.v].level > 0 {
          ghost var act, inc := activity, varInc;
          VarBumpActivity(q.v);
          FreshNext(old(seen), seen, q.v);
          BumpedTrans(old(activity), old(varInc), act, inc, activity, varInc, Fresh(old(seen), seen), {q.v});
          MarkStep(T(), seen, out, pathC, bound, q);
          seen := seen[q.v := true];
          if vardata[q.v].level >= |trailLim| {
            pathC := pathC + 1;
          } else {
            out := out + [q];
          }
        }
      }
      assert c[..|c|] == c;
    }

    // Scans the trail downwards for the next marked literal.
    method NextSeen(bound: nat, ghost out: seq<Lit>, ghost pathC: nat) returns (index: nat)
      requires AnalysisBase() && Collecting(T(), seen, out, pathC, bound) && pathC > 0
      ensures index < bound <= |trail| && T().LevelStart() <= index
      ensures trail[index].v < |seen| && seen[trail[index].v]
      ensures forall k :: index < k < bound ==> trail[k].v < |seen| && !seen[trail[k].v]
    {
      ghost var v := SomeSeen(T(), seen, out, pathC, bound);
      index := bound - 1;
      assert forall k :: 0 <= k < |trail| ==> T().Val(trail[k]) == True;
      while !seen[trail[index].v]
        invariant T().Pos(v) <= index < bound
        invariant forall k :: index < k < bound ==> trail[k].v < |seen| && !seen[trail[k].v]
        decreases index
      {
        index := index - 1;
      }
    }

    method ClaBumpActivity(cr: CRef)
      requires ca.Valid() && cr in ca.act && claInc > 0.0 && forall i :: 0 <= i < |learnts| ==> learnts[i] in ca.act
      modifies ca`act, `claInc
      ensures ca.Valid() && ca.act.Keys == old(ca.act).Keys && claInc > 0.0
      ensures var bumped := old(ca.act)[cr := old(ca.act)[cr] + old(claInc)];
              if bumped[cr] <= CLAUSE_RESCALE then claInc == old(claInc) && ca.act == bumped
              else
                && claInc == old(claInc) / CLAUSE_RESCALE
                && (Different(learnts) ==> ca.act == Rescaled(bumped, learnts))
      ensures Different(learnts) ==> ClausesBumped(old(ca.act), old(claInc), ca.act, claInc, learnts, {cr})
    {
      hide Rescaled, Different, ClausesBumped;
      ghost var act, inc := ca.act, claInc;
      ClausesBumpedOne(act, inc, learnts, cr);
      ca.act := ca.act[cr := ca.act[cr] + claInc];
      if ca.act[cr] > CLAUSE_RESCALE {
        ghost var bumped := ca.act;
        RescaledEnds(bumped, learnts);
        for i := 0 to |learnts|
          invariant ca.Valid() && ca.act.Keys == bumped.Keys && claInc == old(claInc)
          invariant Different(learnts) ==> ca.act == Rescaled(bumped, learnts[..i])
        {
          if Different(learnts) { RescaledNext(bumped, learnts, i); }
          ca.act := ca.act[learnts[i] := ca.act[learnts[i]] / CLAUSE_RESCALE];
        }
        if Different(learnts) {
          RescaledListed(bumped, learnts);
          ClausesBumpedScaled(act, inc, bumped, claInc, learnts, {cr}, ca.act, CLAUSE_RESCALE);
        }
        claInc := claInc / CLAUSE_RESCALE;
      }
    }

    ghost predicate ActivitiesOK()
      reads `claInc, `learnts, ca
    {
      ca.Valid() && claInc > 0.0 && forall i :: 0 <= i < |learnts| ==> learnts[i] in ca.act
    }

    /** The clause to resolve on next: the falsified clause itself (start 0), or the reason of the
        literal p just taken from the trail (start 1). */
    ghost predicate Resolving(cr: CRef, start: nat, p: Lit, out: seq<Lit>, pathC: nat, bound: nat)
      reads `assigns, `vardata, `trail, `trailLim, `pos, `seen, `added, ca`mem
    {
      && Collecting(T(), seen, out, pathC, bound)
      && Live(ca.mem, cr) && |ca.mem[cr].lits| >= 2 && Antecedents(ca.mem[cr].lits, start, bound)
      && (if start == 0
          then exists q :: q in ca.mem[cr].lits && T().Lev(q.v) == T().DL()
          else start == 1 && pathC > 0 && ca.mem[cr].lits[0] == p && p.v < |seen| && T().TrueLit(p.v) == p
               && Conflicting(added, T(), seen[p.v := true]))
    }

    // The literal at index of the trail has been taken out; no model agrees with it and the marks.
    ghost predicate Resolved(index: nat, out: seq<Lit>, pathC: nat)
      reads `assigns, `vardata, `trail, `trailLim, `pos, `seen, `added
    {
      && index < |trail| && trail[index].v < |seen|
      && Collecting(T(), seen, out, pathC, index)
      && T().TrueLit(trail[index].v) == trail[index] && T().Lev(trail[index].v) == T().DL()
      && Conflicting(added, T(), seen[trail[index].v := true])
    }

    // Resolves on p with clause cr (or starts from the falsified clause cr).
    method ResolveClause(cr: CRef, start: nat, ghost p: Lit, out0: seq<Lit>, pathC0: nat, ghost bound: nat)
      returns (out: seq<Lit>, pathC: nat)
      requires AnalysisBase() && HeapInv() && ActivitiesOK() && Resolving(cr, start, p, out0, pathC0, bound)
      modifies `seen, `activity, `varInc, `claInc, order, ca`act
      ensures AnalysisBase() && HeapInv() && ActivitiesOK()
      ensures Collecting(T(), seen, out, pathC, bound) && pathC > 0 && Conflicting(added, T(), seen)
      ensures MarkedBy(T(), old(seen), seen, ca.mem[cr].lits, start)
      ensures Bumped(old(activity), old(varInc), activity, varInc, Fresh(old(seen), seen))
      ensures RefsOK(ca.mem, learnts, true) ==>
        ClausesBumped(old(ca.act), old(claInc), ca.act, claInc, learnts, {cr})
      ensures order.SameEntries()
    {
      hide TrailOK, ReasonsOK, DbOK, Sound, Collecting, Conflicting, Ordered, Inverse, MarkedBy, Bumped, ClausesBumped,
           Fresh, RefsOK;
      var c := ca.mem[cr].lits;
      if RefsOK(ca.mem, learnts, true) { RefsListed(ca.mem, learnts, cr); }
      ClausesBumpedNone(ca.act, claInc, learnts);
      if ca.mem[cr].learnt {
        ClaBumpActivity(cr);
      } else if RefsOK(ca.mem, learnts, true) {
        ClausesBumpedSame(ca.act, claInc, ca.act, claInc, learnts, {}, {cr});
      }
      ghost var seen0 := seen;
      out, pathC := MarkClause(c, start, out0, pathC0, bound);
      Counted(cr, start, p, out0, pathC0, out, pathC, bound, seen0);
      if start == 0 {
        ConflictStep(added, ca.mem, T(), seen, cr);
      } else {
        ResolveStep(added, ca.mem, T(), seen0, seen, p, cr);
      }
    }

    lemma RefsListed(mem: Memory, cs: seq<CRef>, cr: CRef)
      requires RefsOK(mem, cs, true) && cr in mem
      ensures Different(cs) && (!mem[cr].learnt ==> forall i :: 0 <= i < |cs| ==> cs[i] != cr)
    {
      forall i | 0 <= i < |cs| ensures cs[i] in mem && mem[cs[i]].learnt {
        var r := cs[i];
        assert r in cs;
        assert Live(mem, r) && mem[r].learnt == true;
      }
    }

    // Takes the last marked literal of the current level from the trail.
    method PopMarked(bound: nat, ghost out: seq<Lit>, ghost pathC: nat) returns (index: nat)
      requires AnalysisBase() && Conflicting(added, T(), seen)
      requires Collecting(T(), seen, out, pathC, bound) && pathC > 0
      modifies `seen
      ensures AnalysisBase() && index < bound && Resolved(index, out, pathC - 1)
      ensures Popped(T(), old(seen), seen, index, bound)
    {
      hide TrailOK, ReasonsOK, DbOK, Sound, Collecting, Conflicting;
      ghost var t := T();
      index := NextSeen(bound, out, pathC);
      PopStep(t, seen, out, pathC, bound, index);
      TrailLit(t, index);
      ghost var marked := seen;
      seen := seen[trail[index].v := false];
      assert seen[trail[index].v := true] == marked;
    }

    lemma Counted(cr: CRef, start: nat, p: Lit, out0: seq<Lit>, pathC0: nat, out: seq<Lit>, pathC: nat, bound: nat,
            seen0: seq<bool>)
      requires MarkedMore(seen0, seen) && T().DL() > 0
      requires Collecting(T(), seen0, out0, pathC0, bound) && Collecting(T(), seen, out, pathC, bound)
      requires cr in ca.mem && AllMarked(T(), seen, ca.mem[cr].lits, start)
      requires if start == 0 then exists q :: q in ca.mem[cr].lits && T().Lev(q.v) == T().DL() else pathC0 > 0
      ensures pathC > 0
    {
      if start == 0 {
        var q :| q in ca.mem[cr].lits && T().Lev(q.v) == T().DL();
        ConflictCounted(T(), seen, ca.mem[cr].lits, q);
      } else {
        StillCounted(T(), seen0, seen);
      }
    }

    /** Since the activities were these, everything involved so far has been bumped once: variables,
        and learnt clauses. */
    ghost predicate Tallied(act0: seq<real>, inc0: real, cact0: map<CRef, real>, cinc0: real, S: set<Var>, R: set<CRef>)
      reads `activity, `varInc, `claInc, `learnts, ca`mem, ca`act
    {
      && Bumped(act0, inc0, activity, varInc, S)
      && (RefsOK(ca.mem, learnts, true) ==> ClausesBumped(cact0, cinc0, ca.act, claInc, learnts, R))
    }

    lemma StartTally()
      requires HeapInv() && ActivitiesOK()
      ensures Tallied(activity, varInc, ca.act, claInc, {}, {})
    {
      hide Bumped, ClausesBumped;
      BumpedNone(activity, varInc);
      ClausesBumpedNone(ca.act, claInc, learnts);
    }

    /** Resolves on one clause and takes the next literal from the trail. */
    method ResolveNext(ghost confl: CRef, cr: CRef, start: nat, ghost p: Lit, out0: seq<Lit>, pathC0: nat, bound: nat,
            ghost act0: seq<real>, ghost inc0: real, ghost cact0: map<CRef, real>, ghost cinc0: real)
      returns (out: seq<Lit>, pathC: nat, index: nat)
      requires AnalysisBase() && HeapInv() && ActivitiesOK() && Falsified(ca.mem, T(), confl)
      requires Resolving(cr, start, p, out0, pathC0, bound) && NextFront(ca.mem, T(), confl, bound, seen, cr, start)
      requires Tallied(act0, inc0, cact0, cinc0, InvolvedBefore(ca.mem, T(), confl, bound, start),
                   ResolventsBefore(ca.mem, T(), confl, bound, start))
      modifies `seen, `activity, `varInc, `claInc, order, ca`act
      ensures AnalysisBase() && HeapInv() && ActivitiesOK() && order.SameEntries()
      ensures index < bound && Resolved(index, out, pathC)
      ensures var roots := ConflictVars(ca.mem, T(), confl);
        && trail[index].v < |seen| && !seen[trail[index].v]
        && Front(ca.mem, T(), roots, index + 1, seen[trail[index].v := true]) && NoPoint(ca.mem, T(), roots, index + 1)
        && Tallied(act0, inc0, cact0, cinc0, InvolvedVars(ca.mem, T(), roots, index + 1),
               Resolvents(ca.mem, T(), confl, index + 1))
    {
      hide TrailOK, ReasonsOK, DbOK, Sound, Collecting, Conflicting, HeapInv, ActivitiesOK, MarkedBy, Popped, Front,
           NoPoint, ConflictVars, RootsOK, Bumped, ClausesBumped, RefsOK, InvolvedBefore, InvolvedVars, Resolvents,
           ResolventsBefore, NextFront, Fresh, Falsified;
      ghost var seen0, act1, inc1, cact1, cinc1 := seen, activity, varInc, ca.act, claInc;
      ghost var roots := ConflictVars(ca.mem, T(), confl);
      out, pathC := ResolveClause(cr, start, p, out0, pathC0, bound);
      MovedFront(ca.mem, T(), confl, bound, seen0, seen, cr, start);
      BumpedStep(ca.mem, T(), confl, bound, seen0, seen, cr, start, act0, inc0, act1, inc1, activity, varInc);
      if RefsOK(ca.mem, learnts, true) {
        ClausesBumpedStep(ca.mem, T(), confl, bound, seen0, cr, start, cact0, cinc0, cact1, cinc1, ca.act, claInc,
            learnts);
      }
      seen0 := seen;
      index := PopMarked(bound, out, pathC);
      pathC := pathC - 1;
      PoppedFront(ca.mem, T(), roots, index, bound, seen0, seen);
      PoppedResolvents(ca.mem, T(), confl, index, bound, seen0, seen);
    }

    /** Resolves until a single literal of the current level is left: the first unique
        implication point, at index at of the trail. */
    method FirstUip(confl: CRef) returns (out: seq<Lit>, p: Lit, ghost at: nat)
      requires AnalysisBase() && HeapInv() && ActivitiesOK() && Conflict(confl)
      requires forall v :: 0 <= v < |seen| ==> !seen[v]
      modifies `seen, `activity, `varInc, `claInc, order, ca`act
      ensures AnalysisBase() && HeapInv() && ActivitiesOK()
      ensures Uip(added, T(), seen, out, p)
      ensures at < |trail| && FirstPoint(ca.mem, T(), ConflictVars(ca.mem, T(), confl), at, seen) && p == trail[at]
      ensures Tallied(old(activity), old(varInc), old(ca.act), old(claInc),
                  InvolvedVars(ca.mem, T(), ConflictVars(ca.mem, T(), confl), at + 1),
                  Resolvents(ca.mem, T(), confl, at + 1))
      ensures order.SameEntries()
    {
      hide TrailOK, ReasonsOK, DbOK, Sound, Collecting, Conflicting, Uip, HeapInv, ActivitiesOK, Front, NoPoint,
           FirstPoint, ConflictVars, RootsOK, InvolvedBefore, InvolvedVars, Resolvents, ResolventsBefore, Tallied;
      out := [Lit(0, false)];   // room for the asserting literal
      var pathC: nat, index: nat, start: nat, cr := 0, |trail|, 0, confl;
      p := Lit(0, false);
      StartCollecting(T(), seen, out, ca.mem, confl);
      ghost var roots := ConflictVars(ca.mem, T(), confl);
      NoPointYet(ca.mem, T(), roots);
      StartTally();
      NothingBefore(ca.mem, T(), confl, index);
      while true
        invariant AnalysisBase() && HeapInv() && ActivitiesOK() && order.SameEntries()
        invariant Resolving(cr, start, p, out, pathC, index)
        invariant NextFront(ca.mem, T(), confl, index, seen, cr, start)
        invariant Tallied(old(activity), old(varInc), old(ca.act), old(claInc),
                      InvolvedBefore(ca.mem, T(), confl, index, start),
                      ResolventsBefore(ca.mem, T(), confl, index, start))
        decreases index
      {
        out, pathC, index := ResolveNext(confl, cr, start, p, out, pathC, index, old(activity), old(varInc),
            old(ca.act), old(claInc));
        p := trail[index];
        if pathC == 0 {
          break;
        }
        StillAhead(ca.mem, T(), roots, index, seen, out, pathC);
        NextClause(added, ca.mem, T(), seen, out, pathC, index);
        NothingBefore(ca.mem, T(), confl, index);
        cr, start := vardata[p.v].reason, 1;
      }
      UipReached(added, T(), seen, out, index, p);
      out := out[0 := Neg(p)];
      at := index;
      UipFirst(added, ca.mem, T(), roots, at, seen, out);
    }

    // ---------- minimisation of the learnt clause ----------

    function AbstractLevel(x: Var): bv32
      requires x < |vardata|
      reads `vardata
    {
      Bit(vardata[x].level % 32)
    }

    // The marks and the list they will be cleared from.
    ghost predicate Marks(seen0: seq<bool>, top: nat)
      reads `seen, `analyzeToclear
    {
      && top <= |analyzeToclear| && ClearList(seen, analyzeToclear)
      && MarkedSince(seen0, seen, analyzeToclear[top..])
    }

    method Mark(q: Lit, ghost seen0: seq<bool>, ghost top: nat)
      requires Marks(seen0, top) && q.v < |seen| && !seen[q.v]
      modifies `seen, `analyzeStack, `analyzeToclear
      ensures Marks(seen0, top) && seen == old(seen)[q.v := true]
      ensures analyzeStack == old(analyzeStack) + [q] && analyzeToclear == old(analyzeToclear) + [q]
    {
      MarkFresh(seen0, seen, analyzeToclear[top..], q);
      InVarsPush(analyzeToclear, q);
      seen := seen[q.v := true];
      analyzeStack := analyzeStack + [q];
      assert (analyzeToclear + [q])[top..] == analyzeToclear[top..] + [q];
      analyzeToclear := analyzeToclear + [q];
    }

    /** Marks the literals of the reason of x; fails at one that is a decision or of a level that
        no literal of the clause can have. */
    method ExpandReason(x: Var, abstractLevels: bv32, ghost levels: set<nat>, ghost p: Var, ghost seen0: seq<bool>,
            ghost top: nat)
      returns (fine: bool)
      requires AnalysisBase() && Marks(seen0, top) && T().Assigned(x) && T().Why(x) != CREF_UNDEF && p < |seen|
      requires Expanding(ca.mem, T(), seen0, seen, analyzeStack, p, x) && Abstracts(abstractLevels, levels)
      requires Explored(ca.mem, T(), seen0, seen, levels, analyzeStack, p) && (x == p || Found(seen0, seen, x))
      modifies `seen, `analyzeStack, `analyzeToclear
      ensures AnalysisBase() && Marks(seen0, top) && analyzeToclear[..top] == old(analyzeToclear)[..top]
      ensures MarkedMore(old(seen), seen) && (seen == old(seen) ==> |analyzeStack| == |old(analyzeStack)|)
      ensures fine ==> Redundancy(ca.mem, T(), seen0, seen, analyzeStack, p)
      ensures fine ==> Explored(ca.mem, T(), seen0, seen, levels, analyzeStack, p)
      ensures !fine ==> Irredundant(ca.mem, T(), seen0, levels, p)
    {
      hide TrailOK, ReasonsOK, DbOK, Sound, Expanding, MarkedSince, ClearList, Explored, Irredundant, Abstracts,
           AbstractLevel, Meet;
      ReasonFacts(ca.mem, T(), x);
      var c := ca.mem[vardata[x].reason].lits;
      ghost var stack0 := analyzeStack;
      var i := 1;
      while i < |c|
        invariant 1 <= i <= |c|
        invariant AnalysisBase() && Marks(seen0, top) && analyzeToclear[..top] == old(analyzeToclear)[..top]
        invariant MarkedMore(old(seen), seen) && (seen == old(seen) ==> analyzeStack == stack0)
        invariant AllMarked(T(), seen, c[..i], 1)
        invariant Expanding(ca.mem, T(), seen0, seen, analyzeStack, p, x)
        invariant Explored(ca.mem, T(), seen0, seen, levels, analyzeStack, p) && (x == p || Found(seen0, seen, x))
      {
        var q := c[i];
        if !seen[q.v] && vardata[q.v].level > 0 {
          ExploreStep(ca.mem, T(), seen0, seen, levels, analyzeStack, p, x, q);
          LevelBit(q.v, abstractLevels, levels);
          if vardata[q.v].reason != CREF_UNDEF && Meet(AbstractLevel(q.v), abstractLevels) {
            MarkExpanding(ca.mem, T(), seen0, seen, analyzeStack, p, x, q);
            Mark(q, seen0, top);
          } else {
            return false;
          }
        }
        i := i + 1;
      }
      assert c[..|c|] == c;
      Expanded(ca.mem, T(), seen0, seen, analyzeStack, p, x);
      fine := true;
    }

    // The test of a single bit asks for the residue of the level.
    lemma LevelBit(x: Var, abstractLevels: bv32, levels: set<nat>)
      requires x < |vardata| && Abstracts(abstractLevels, levels)
      ensures Meet(AbstractLevel(x), abstractLevels) <==> T().Lev(x) % 32 in levels
    {
      hide Bit, Meet;
      assert HasBit(abstractLevels, T().Lev(x) % 32) <==> T().Lev(x) % 32 in levels;
    }

    // Clears the marks made since top.
    method Rollback(top: nat, ghost seen0: seq<bool>)
      requires Marks(seen0, top)
      modifies `seen, `analyzeToclear
      ensures seen == seen0 && analyzeToclear == old(analyzeToclear)[..top]
    {
      for j := top to |analyzeToclear|
        invariant |seen| == |seen0| && analyzeToclear == old(analyzeToclear)
        invariant forall v :: 0 <= v < |seen| && seen0[v] ==> seen[v]
        invariant forall v :: 0 <= v < |seen| && seen[v] && !seen0[v] ==> InVars(analyzeToclear[j..], v)
      {
        ghost var seen1 := seen;
        seen := seen[analyzeToclear[j].v := false];
        forall v | 0 <= v < |seen| && seen[v] && !seen0[v] ensures InVars(analyzeToclear[j + 1..], v) {
          var i :| 0 <= i < |analyzeToclear[j..]| && analyzeToclear[j..][i].v == v;
          assert analyzeToclear[j + 1..][i - 1].v == v;
        }
      }
      analyzeToclear := analyzeToclear[..top];
    }

    /** Whether p follows from other marked literals: exactly if no chain of reasons leads from it
        to a variable at which the search gives up.  On success what p reaches is marked, on
        failure the marks are as before. */
    method LitRedundant(p: Lit, abstractLevels: bv32, ghost levels: set<nat>) returns (redundant: bool)
      requires AnalysisBase() && SeenOK(T(), seen) && ClearList(seen, analyzeToclear)
      requires p.v < |seen| && T().Assigned(p.v) && T().Why(p.v) != CREF_UNDEF && Abstracts(abstractLevels, levels)
      modifies `seen, `analyzeStack, `analyzeToclear
      ensures AnalysisBase() && SeenOK(T(), seen) && ClearList(seen, analyzeToclear)
      ensures redundant <==> !Irredundant(ca.mem, T(), old(seen), levels, p.v)
      ensures redundant ==> MarkedMore(old(seen), seen) && Justified(ca.mem, T(), seen, p.v)
      ensures redundant ==> forall v :: 0 <= v < |seen| && seen[v] && !old(seen)[v] ==> Justified(ca.mem, T(), seen, v)
      ensures redundant ==> forall v :: Found(old(seen), seen, v) <==> Reaches(ca.mem, T(), old(seen), p.v, v)
      ensures !redundant ==> seen == old(seen) && analyzeToclear == old(analyzeToclear)
    {
      hide TrailOK, ReasonsOK, DbOK, Sound, Expanding, MarkedSince, ClearList, Justified, Redundancy, Explored,
           Irredundant, Abstracts, Reaches;
      analyzeStack := [p];
      var top := |analyzeToclear|;
      ghost var seen0 := seen;
      StartRedundancy(ca.mem, T(), seen, p, analyzeToclear);
      StartExplored(ca.mem, T(), seen, levels, p);
      while |analyzeStack| > 0
        invariant AnalysisBase() && Marks(seen0, top) && analyzeToclear[..top] == old(analyzeToclear)
        invariant Redundancy(ca.mem, T(), seen0, seen, analyzeStack, p.v)
        invariant Explored(ca.mem, T(), seen0, seen, levels, analyzeStack, p.v)
        decreases Unmarked(seen), |analyzeStack|
      {
        var x := analyzeStack[|analyzeStack| - 1].v;
        PopStack(ca.mem, T(), seen0, seen, analyzeStack, p.v);
        OnStack(ca.mem, T(), seen0, seen, analyzeStack, p.v);
        PopExplored(ca.mem, T(), seen0, seen, levels, analyzeStack, p.v);
        analyzeStack := analyzeStack[..|analyzeStack| - 1];
        ghost var seen1 := seen;
        var fine := ExpandReason(x, abstractLevels, levels, p.v, seen0, top);
        UnmarkedLess(seen1, seen);
        if !fine {
          Rollback(top, seen0);
          return false;
        }
      }
      EndRedundancy(ca.mem, T(), seen0, seen, p.v);
      ExploredAll(ca.mem, T(), seen0, seen, levels, p.v);
      redundant := true;
    }

    // Whether every other literal of the reason of x is marked or at level 0.
    method ReasonMarked(x: Var) returns (marked: bool)
      requires AnalysisBase() && T().Assigned(x) && T().Why(x) != CREF_UNDEF
      ensures marked ==> Justified(ca.mem, T(), seen, x)
      ensures marked <==> ReasonKnown(ca.mem, T(), seen, x)
    {
      hide TrailOK, ReasonsOK, DbOK, Sound;
      ReasonFacts(ca.mem, T(), x);
      var c := ca.mem[vardata[x].reason].lits;
      for k := 1 to |c|
        invariant AllMarked(T(), seen, c[..k], 1)
      {
        if !seen[c[k].v] && vardata[c[k].v].level > 0 {
          assert HasVar(c, c[k].v);
          return false;
        }
      }
      assert c[..|c|] == c;
      marked := true;
    }

    // One literal of the learnt clause: dropped if it is redundant.
    method Droppable(q: Lit, abstractLevels: bv32, ghost levels: set<nat>, ghost c: seq<Lit>, ghost seen0: seq<bool>)
      returns (drop: bool)
      requires AnalysisBase() && SeenOK(T(), seen) && ClearList(seen, analyzeToclear)
      requires T().Assigned(q.v) && q.v < |seen| && Covered(ca.mem, T(), seen, c) && Abstracts(abstractLevels, levels)
      requires CleanMarks(ca.mem, T(), seen0, seen, levels) && (ccminMode != 2 ==> seen == seen0)
      modifies `seen, `analyzeStack, `analyzeToclear
      ensures AnalysisBase() && SeenOK(T(), seen) && ClearList(seen, analyzeToclear)
      ensures MarkedMore(old(seen), seen) && Covered(ca.mem, T(), seen, c)
      ensures drop ==> Justified(ca.mem, T(), seen, q.v)
      ensures CleanMarks(ca.mem, T(), seen0, seen, levels) && (ccminMode != 2 ==> seen == seen0)
      ensures drop <==> MayDrop(ccminMode, ca.mem, T(), seen0, levels, q.v)
    {
      hide TrailOK, ReasonsOK, DbOK, Sound, Covered, Justified, ClearList, CleanMarks, Irredundant, ReasonKnown,
           Abstracts, Reaches;
      drop := false;
      if vardata[q.v].reason != CREF_UNDEF {
        if ccminMode == 2 {
          ghost var seen1 := seen;
          MarksIrrelevant(ca.mem, T(), seen0, seen1, levels, q.v);
          drop := LitRedundant(q, abstractLevels, levels);
          if drop {
            CoveredMore(ca.mem, T(), seen1, seen, c);
            StillClean(ca.mem, T(), seen0, seen1, seen, levels, q.v);
          }
        } else if ccminMode == 1 {
          drop := ReasonMarked(q.v);
        }
      }
    }

    // The residues of the levels of the literals that come after the first.
    method AbstractLevels(c: seq<Lit>) returns (abstractLevels: bv32)
      requires forall i :: 1 <= i < |c| ==> c[i].v < |vardata|
      ensures Abstracts(abstractLevels, Residues(T(), c, |c|))
    {
      hide Abstracts, Bit;
      abstractLevels := 0;
      NoBits();
      assert Residues(T(), c, 1) == {};
      if |c| == 0 {
        assert Residues(T(), c, 0) == {};
        return;
      }
      for i := 1 to |c|
        invariant Abstracts(abstractLevels, Residues(T(), c, i))
      {
        AbstractsMore(abstractLevels, Residues(T(), c, i), vardata[c[i].v].level % 32);
        ResiduesNext(T(), c, i);
        abstractLevels := abstractLevels | AbstractLevel(c[i].v);
      }
    }

    /** Drops redundant literals; what is left is still implied, and is exactly what the mode asks
        for. */
    method Minimize(out0: seq<Lit>, ghost p: Lit) returns (out: seq<Lit>)
      requires AnalysisBase() && Uip(added, T(), seen, out0, p) && ClearList(seen, analyzeToclear)
      modifies `seen, `analyzeStack, `analyzeToclear
      ensures AnalysisBase() && ClearList(seen, analyzeToclear)
      ensures Implied(added, out) && LowerLits(T(), out) && out[0] == Neg(p)
      ensures Minimized(ccminMode, ca.mem, T(), old(seen), out0, out)
    {
      hide TrailOK, ReasonsOK, DbOK, Sound, Covered, Justified, ClearList, LowerLits, Implied, SeenOK, Conflicting,
           Abstracts, Residues, CleanMarks, MinimizedUpTo, Minimized, MayDrop;
      out := out0;
      UipFacts(added, ca.mem, T(), seen, out, p);
      ghost var seen0 := seen;
      var abstractLevels := AbstractLevels(out);
      ghost var levels := Residues(T(), out0, |out0|);
      StartClean(ca.mem, T(), seen0, levels);
      StartMinimized(ccminMode, ca.mem, T(), seen0, levels, out0);
      var i: nat, j: nat := 1, 1;
      assert Compacted(out, 1, 1) == out;
      while i < |out|
        invariant 1 <= j <= i <= |out| == |out0|
        invariant AnalysisBase() && SeenOK(T(), seen) && ClearList(seen, analyzeToclear) && MarkedMore(seen0, seen)
        invariant LowerLits(T(), Compacted(out, i, j)) && Compacted(out, i, j)[0] == Neg(p)
        invariant Covered(ca.mem, T(), seen, Compacted(out, i, j))
        invariant CleanMarks(ca.mem, T(), seen0, seen, levels) && (ccminMode != 2 ==> seen == seen0)
        invariant MinimizedUpTo(ccminMode, ca.mem, T(), seen0, levels, out0, i, out, j)
      {
        SqueezeDrop(out, i, j);
        LowerLit(T(), Compacted(out, i, j), j);
        MinimizedNext(ccminMode, ca.mem, T(), seen0, levels, out0, i, out, j);
        var drop := Droppable(out[i], abstractLevels, levels, Compacted(out, i, j), seen0);
        if drop {
          CoveredDrop(ca.mem, T(), seen, Compacted(out, i, j), j);
          LowerDrop(T(), Compacted(out, i, j), j);
        } else {
          SqueezeKeep(out, i, j);
          out := out[j := out[i]];
          j := j + 1;
        }
        i := i + 1;
      }
      assert Compacted(out, i, j) == out[..j];
      MinimizedEnd(ccminMode, ca.mem, T(), seen0, out0, out, j);
      out := out[..j];
      MinimizedClause(added, ca.mem, T(), seen0, seen, p, out);
    }

    // Puts the first literal of the highest other level at index 1.
    method BacktrackLevel(out0: seq<Lit>) returns (out: seq<Lit>, btlevel: nat)
      requires AnalysisBase() && LowerLits(T(), out0) && T().Val(out0[0]) == False && T().Lev(out0[0].v) == T().DL()
      ensures Asserting(T(), out, btlevel) && SameLits(out, out0) && out[0] == out0[0]
      ensures |out0| > 1 ==> exists m :: FirstHighest(T(), out0, m) && out == Exchanged(out0, m, 1)
    {
      hide TrailOK, ReasonsOK, DbOK, Sound;
      out, btlevel := out0, 0;
      if |out| > 1 {
        var m := 1;
        for i := 2 to |out|
          invariant 1 <= m < i && forall k :: 1 <= k < i ==> T().Lev(out[k].v) <= T().Lev(out[m].v)
          invariant forall k :: 1 <= k < m ==> T().Lev(out[k].v) < T().Lev(out[m].v)
        {
          if vardata[out[i].v].level > vardata[out[m].v].level {
            m := i;
          }
        }
        SwapLower(T(), out, m);
        assert FirstHighest(T(), out0, m);
        out := Exchanged(out, m, 1);
        btlevel := vardata[out[1].v].level;
      }
    }

    method ClearSeen()
      requires ClearList(seen, analyzeToclear)
      modifies `seen
      ensures |seen| == |old(seen)| && forall v :: 0 <= v < |seen| ==> !seen[v]
    {
      for j := 0 to |analyzeToclear|
        invariant |seen| == |old(seen)|
        invariant forall v :: 0 <= v < |seen| && seen[v] ==> InVars(analyzeToclear[j..], v)
      {
        seen := seen[analyzeToclear[j].v := false];
        forall v | 0 <= v < |seen| && seen[v] ensures InVars(analyzeToclear[j + 1..], v) {
          var i :| 0 <= i < |analyzeToclear[j..]| && analyzeToclear[j..][i].v == v;
          assert analyzeToclear[j + 1..][i - 1].v == v;
        }
      }
    }

    /** Conflict analysis: an implied clause that asserts a literal at a lower level; it is what
        minimisation leaves of the clause of the first unique implication point. */
    method Analyze(confl: CRef) returns (out: seq<Lit>, btlevel: nat, ghost at: nat)
      requires AnalysisBase() && HeapInv() && ActivitiesOK() && Conflict(confl)
      requires forall v :: 0 <= v < |seen| ==> !seen[v]
      modifies `seen, `activity, `varInc, `claInc, `analyzeStack, `analyzeToclear, order, ca`act
      ensures AnalysisBase() && HeapInv() && ActivitiesOK()
      ensures Implied(added, out) && Asserting(T(), out, btlevel)
      ensures Learned(ccminMode, added, ca.mem, T(), confl, out)
      ensures FirstIndex(ca.mem, T(), ConflictVars(ca.mem, T(), confl), at)
      ensures Tallied(old(activity), old(varInc), old(ca.act), old(claInc),
                  InvolvedVars(ca.mem, T(), ConflictVars(ca.mem, T(), confl), at + 1),
                  Resolvents(ca.mem, T(), confl, at + 1))
      ensures forall v :: 0 <= v < |seen| ==> !seen[v]
      ensures order.SameEntries()
    {
      hide TrailOK, ReasonsOK, DbOK, Sound, Uip, Implied, Asserting, LowerLits, Ordered, Inverse, ClearList,
           FirstIndex, Minimized, SameLits, Tallied, InvolvedVars, Resolvents, ConflictVars;
      var p;
      out, p, at := FirstUip(confl);
      ghost var uip, marks := out, seen;
      UipClear(added, T(), seen, out, p);
      analyzeToclear := out;
      out := Minimize(out, p);
      ghost var c := out;
      out, btlevel := BacktrackLevel(out);
      SameImplied(added, out, c);
      Reordered(ccminMode, ca.mem, T(), marks, uip, c, out, btlevel);
      assert LearnedAt(ccminMode, added, ca.mem, T(), confl, out, at, marks, uip);
      ClearSeen();
    }

    // ---------- failed assumptions ----------

    // Replaces the marked literal at index i of the trail by the rest of its reason.
    method MarkReason(i: nat, ghost out: seq<Lit>, ghost p: Lit)
      requires TrailBase() && i < |trail| && T().Why(trail[i].v) != CREF_UNDEF
      requires FinalMarks(T(), seen, i + 1, p) && Explains(added, T(), seen, out, p) && RootsOK(T(), {p.v})
      requires trail[i].v < |seen| && seen[trail[i].v] && Front(ca.mem, T(), {p.v}, i + 1, seen)
      modifies `seen
      ensures TrailBase() && FinalMarks(T(), seen, i, p) && Explains(added, T(), seen, out, p)
      ensures Front(ca.mem, T(), {p.v}, i, seen)
    {
      hide TrailOK, ReasonsOK, DbOK, Sound, FinalMarks, Explains, Front, MarkedBy, RootsOK, AllMarked;
      var d := trail[i];
      TrailLit(T(), i);
      ReasonFacts(ca.mem, T(), d.v);
      ReasonOf(ca.mem, T(), d);
      var c := ca.mem[vardata[d.v].reason].lits;
      ghost var seen0 := seen;
      MarkedByNone(T(), seen, c, 1);
      for j := 1 to |c|
        invariant |seen| == |seen0| && FinalMarks(T(), seen, i + 1, p) && MarkedMore(seen0, seen)
        invariant AllMarked(T(), seen, c[..j], 1) && MarkedBy(T(), seen0, seen, c[..j], 1)
      {
        MarkedByNext(T(), seen0, seen, c, 1, j);
        AllMarkedNext(T(), seen, c, 1, j);
        if vardata[c[j].v].level > 0 {
          FinalMark(T(), seen, i + 1, p, c[j]);
          seen := seen[c[j].v := true];
        }
      }
      assert c[..|c|] == c;
      FinalDone(T(), seen, i, p);
      ghost var marked := seen;
      ReasonFront(ca.mem, T(), seen0, marked, p, i);
      seen := seen[d.v := false];
      NotInOwnReason(T(), marked, c, d);
      FinalReason(added, ca.mem, T(), seen0, seen, out, p, d);
    }

    /** The assumption Neg(p) has failed: a clause of negated assumptions, implied by the
        clause set alone, that contains p and the negations of exactly those decisions that force
        p. */
    method AnalyzeFinal(p: Lit) returns (out: seq<Lit>)
      requires TrailBase() && T().Val(p) == True && forall v :: 0 <= v < |seen| ==> !seen[v]
      requires AssumptionsOK(T(), assumptions) && |trailLim| < |assumptions| && Neg(p) in assumptions
      modifies `seen
      ensures TrailBase() && forall v :: 0 <= v < |seen| ==> !seen[v]
      ensures Implied(added, out) && p in out && FromAssumptions(out, assumptions)
      ensures ExplainedBy(ca.mem, T(), p, out) && (|trailLim| == 0 ==> out == [p])
    {
      hide TrailOK, ReasonsOK, DbOK, Sound, FinalMarks, Explains, AssumptionsOK, Implied, FromAssumptions, Front,
           ExplainedFrom, ExplainedBy, Explanatory, RootsOK;
      out := [p];
      OnlyAssumption(assumptions, p);
      StartExplained(ca.mem, T(), seen, p);
      if |trailLim| == 0 {
        EndExplained(ca.mem, T(), p, out);
        FinalAtRoot(added, ca.mem, T(), p);
        return;
      }
      StartFinal(added, T(), seen, p);
      seen := seen[p.v := true];
      var i := |trail|;
      LimInTrail(T());
      while i > trailLim[0]
        invariant trailLim[0] <= i <= |trail| && TrailBase()
        invariant FinalMarks(T(), seen, i, p) && Explains(added, T(), seen, out, p)
        invariant |out| >= 1 && out[0] == p && FromAssumptions(out, assumptions)
        invariant Front(ca.mem, T(), {p.v}, i, seen) && ExplainedFrom(ca.mem, T(), p, i, out)
      {
        i := i - 1;
        var x := trail[i].v;
        TrailLit(T(), i);
        FinalLength(T(), seen, i, p);
        ExplainsMarked(ca.mem, T(), seen, p, i);
        ExplainedNext(ca.mem, T(), p, i, out);
        if seen[x] {
          if vardata[x].reason == CREF_UNDEF {
            DecisionExplained(added, T(), seen, out, p, assumptions, i);
            UnmarkFront(ca.mem, T(), seen, p, i);
            out := out + [Neg(trail[i])];
            seen := seen[x := false];
          } else {
            MarkReason(i, out, p);
          }
        } else {
          FinalSkip(T(), seen, i, p);
          UnmarkFront(ca.mem, T(), seen, p, i);
          assert seen[x := false] == seen;
        }
      }
      EndExplained(ca.mem, T(), p, out);
      EndFinal(added, ca.mem, T(), seen, out, p);
      seen := seen[p.v := false];
    }

    // ---------- the invariant of the search ----------

    // The database with cs and ls as lists of problem and learnt clauses.
    ghost predicate DbWith(cs: seq<CRef>, ls: seq<CRef>)
      reads `added, `assigns, `vardata, `trail, `trailLim, `pos, `claInc, ca
    {
      DatabaseOK(added, ca.mem, cs, ls, T(), ca.sz, ca.wasted) && claInc > 0.0
    }

    ghost predicate ScratchInv()
      reads `seen, `polarity, `assigns, `varDecay, `clauseDecay
    {
      && |seen| == |polarity| == |assigns| && (forall v :: 0 <= v < |seen| ==> !seen[v])
      && varDecay > 0.0 && clauseDecay > 0.0
    }

    // The shape of the state, whatever the clauses mean.
    ghost predicate Frame()
      reads `assigns, `vardata, `trail, `trailLim, `pos, `qhead, `activity, `varInc, `decision, `seen, `polarity,
            `varDecay, `clauseDecay, ca, watches, order
    {
      BaseInv() && WatchOK(ca.mem, watches.occs, watches.dirty) && OrderInv() && ScratchInv()
    }

    // Everything but the completeness of propagation.
    ghost predicate CoreWith(cs: seq<CRef>, ls: seq<CRef>)
      reads `assigns, `vardata, `trail, `trailLim, `pos, `qhead, `activity, `varInc, `decision, `seen, `polarity,
            `varDecay, `clauseDecay, `added, `claInc, ca, watches, order
    {
      Frame() && DbWith(cs, ls)
    }

    ghost predicate CoreInv()
      reads `assigns, `vardata, `trail, `trailLim, `pos, `qhead, `activity, `varInc, `decision, `seen, `polarity,
            `varDecay, `clauseDecay, `added, `claInc, `clauses, `learnts, ca, watches, order
    {
      CoreWith(clauses, learnts)
    }

    ghost predicate Inv()
      reads `assigns, `vardata, `trail, `trailLim, `pos, `qhead, `activity, `varInc, `decision, `seen, `polarity,
            `varDecay, `clauseDecay, `added, `claInc, `clauses, `learnts, ca, watches, order
    {
      CoreInv() && PropOK(ca.mem, T(), qhead)
    }

    /** Propagation keeps the invariant, up to the level of a conflict. */
    method PropagateInv() returns (confl: CRef)
      requires Inv()
      modifies `assigns, `vardata, `trail, `pos, `qhead, ca`mem, watches
      ensures CoreInv() && Propagated(confl) && qhead == |trail|
      ensures Derived(T(), old(T()))
      ensures old(qhead) == |old(trail)| ==> confl == CREF_UNDEF && T() == old(T())
    {
      hide WatchOK, PropOK, ReasonsOK, DbOK, TrailOK, SameDb, Derived, Sound, Complete, OccKeys, RefsOK, HeapInv;
      ghost var t, mem := T(), ca.mem;
      confl := Propagate();
      SameRefs(mem, ca.mem, clauses, false);
      SameRefs(mem, ca.mem, learnts, true);
      SameMarks(mem, ca.mem);
      SameWords(mem, ca.mem, clauses);
      SameWords(mem, ca.mem, learnts);
      PropagateSound(added, mem, t, ca.mem, T());
      PropagateComplete(added, mem, clauses, t, ca.mem, T());
      DerivedLens(t, T());
    }

    ghost predicate StateInv()
      reads `assigns, `vardata, `trail, `trailLim, `pos, `qhead, `added, `clauses, `learnts, ca, watches
    {
      StateOK(added, ca.mem, watches.occs, watches.dirty, T(), clauses, learnts, ca.sz, ca.wasted, qhead)
    }

    lemma InvState()
      requires Inv()
      ensures StateInv() && ca.Valid() && ca.fwd == map[] && watches.Valid() && claInc > 0.0 && OrderInv()
          && ScratchInv()
      ensures T().LevelStart() <= qhead <= |trail| && CREF_UNDEF !in ca.mem
    {
    }

    lemma StateGivesInv()
      requires StateInv() && ca.Valid() && ca.fwd == map[] && watches.Valid() && claInc > 0.0 && OrderInv()
          && ScratchInv()
      requires T().LevelStart() <= qhead <= |trail|
      ensures Inv()
    {
    }

    // Undoes all levels above the given one; the signs of undone variables are saved as asked for.
    method CancelUntil(level: nat)
      requires TrailOK(T()) && OrderInv() && |polarity| == |assigns|
      modifies `assigns, `polarity, `trail, `trailLim, `qhead, order
      ensures OrderInv() && |polarity| == |assigns| == |old(assigns)|
      ensures if level < |old(trailLim)|
              then old(trailLim)[level] <= |old(trail)| && T() == Cancelled(old(T()), level) && qhead == |trail|
                && polarity == Saved(old(T()), old(polarity), phaseSaving, old(trailLim)[level])
              else T() == old(T()) && qhead == old(qhead) && polarity == old(polarity)
    {
      hide TrailOK, HeapInv, Saved;
      if |trailLim| > level {
        ghost var t, signs := T(), polarity;
        CancelTrail(t, level);
        UndoneAll(t);
        SavedAll(t, signs, phaseSaving);
        var c := |trail|;
        while c > trailLim[level]
          invariant trail == t.trail && trailLim == t.lim && trailLim[level] <= c <= |trail|
          invariant |polarity| == |assigns| && assigns == Undone(t, c) && polarity == Saved(t, signs, phaseSaving, c)
          invariant OrderInv()
        {
          c := c - 1;
          UndoneStep(t, c);
          SavedStep(t, signs, phaseSaving, c);
          var x := trail[c].v;
          assigns := assigns[x := Undef];
          if phaseSaving > 1 || (phaseSaving == 1 && c > trailLim[|trailLim| - 1]) {
            polarity := polarity[x := trail[c].neg];
          }
          InsertVarOrder(x);
        }
        qhead := trailLim[level];
        trail := trail[..trailLim[level]];
        trailLim := trailLim[..level];
      }
    }

    /** Backtracking keeps the invariant if the levels that stay have been propagated. */
    method CancelInv(level: nat, ghost limit: nat)
      requires CoreInv() && PropOK(ca.mem, T(), limit)
      requires level < |trailLim| ==> trailLim[level] <= limit
      requires level >= |trailLim| ==> limit == qhead
      modifies `assigns, `polarity, `trail, `trailLim, `qhead, order
      ensures Inv()
      ensures if level < |old(trailLim)|
              then old(trailLim)[level] <= |old(trail)| && T() == Cancelled(old(T()), level) && qhead == |trail|
              else T() == old(T()) && qhead == old(qhead)
    {
      hide WatchOK, PropOK, ReasonsOK, DbOK, TrailOK, Sound, Complete, OccKeys, RefsOK, OrderInv;
      ghost var t := T();
      CancelUntil(level);
      if level < |t.lim| {
        CancelTrail(t, level);
        CancelReasons(ca.mem, t, level);
        CancelProp(ca.mem, t, level, limit);
        CancelSound(added, ca.mem, t, level);
        CancelComplete(added, ca.mem, clauses, t, level);
        CancelStart(t, level);
      }
    }

    // ---------- learning ----------

    /** An implied literal becomes a fact of level 0. */
    method EnqueueFact(p: Lit)
      requires Inv() && |trailLim| == 0 && p.v < |assigns| && T().Val(p) == Undef && Implied(added, [p])
      modifies `assigns, `vardata, `trail, `pos
      ensures Inv() && T() == Enqueued(old(T()), p, CREF_UNDEF)
    {
      hide WatchOK, PropOK, ReasonsOK, DbOK, Sound, Complete, OccKeys, RefsOK, HeapInv, Implied, LevelOK, Forced;
      ghost var t := T();
      EnqueueTrail(t, p, CREF_UNDEF);
      EnqueueReasons(ca.mem, t, p, CREF_UNDEF);
      ExtendProp(ca.mem, t, Enqueued(t, p, CREF_UNDEF), qhead);
      FactSound(added, ca.mem, clauses, t, p);
      UncheckedEnqueue(p, CREF_UNDEF);
    }

    // Watches the first two literals of cr.
    method AttachClause(cr: CRef)
      requires cr in ca.mem && ClauseOK(ca.mem[cr].lits, |assigns|) && OccKeys(watches.occs, |assigns|)
          && watches.Valid()
      modifies watches`occs
      ensures watches.Valid()
      ensures var c := ca.mem[cr].lits;
              Neg(c[0]) in old(watches.occs) && Neg(c[1]) in old(watches.occs) &&
              watches.occs == Attached(old(watches.occs), cr, c)
    {
      var c := ca.mem[cr].lits;
      watches.Push(Neg(c[0]), Watcher(cr, c[1]));
      watches.Push(Neg(c[1]), Watcher(cr, c[0]));
    }

    /** What makes c a clause to learn: it is implied, its first literal is unassigned, the
        others are false, and the second one was falsified at the current level. */
    ghost predicate Learnable(c: seq<Lit>)
      reads `assigns, `vardata, `trail, `trailLim, `pos, `added
    {
      && ClauseOK(c, |assigns|) && Implied(added, c) && T().Val(c[0]) == Undef
      && (forall i :: 1 <= i < |c| ==> T().Val(c[i]) == False)
      && T().Lev(c[1].v) == T().DL()
    }

    // The activity of cr is that of one bump now.
    ghost predicate OneBump(cr: CRef)
      reads `claInc, ca`act
    {
      claInc > 0.0 && cr in ca.act && Ratio(ca.act[cr], claInc) == 1.0
    }

    // Allocates a learnt clause, lists and watches it.
    method AddLearnt(c: seq<Lit>) returns (cr: CRef)
      requires ca.Valid() && watches.Valid() && ClauseOK(c, |assigns|) && OccKeys(watches.occs, |assigns|)
      requires claInc > 0.0 && forall i :: 0 <= i < |learnts| ==> learnts[i] in ca.act
      modifies `learnts, `claInc, ca, watches`occs
      ensures cr == old(ca.sz) && ca.mem == old(ca.mem)[cr := Clause(c, true, 0)] && learnts == old(learnts) + [cr]
      ensures ca.sz == old(ca.sz) + Words(Clause(c, true, 0)) && ca.wasted == old(ca.wasted) && ca.fwd == old(ca.fwd)
      ensures Neg(c[0]) in old(watches.occs) && Neg(c[1]) in old(watches.occs)
      ensures watches.occs == Attached(old(watches.occs), cr, c)
      ensures ca.Valid() && watches.Valid() && claInc > 0.0
      ensures Different(learnts) ==>
        ClausesBumped(old(ca.act), old(claInc), ca.act, claInc, old(learnts), {}) && OneBump(cr)
    {
      hide Distinct, ClausesBumped, Different, OneBump;
      ghost var act, inc, ls := ca.act, claInc, learnts;
      cr := ca.Alloc(c, true);
      learnts := learnts + [cr];
      AttachClause(cr);
      ClaBumpActivity(cr);
      if Different(learnts) { OneBumpNow(act, inc, ls, cr); }
    }

    lemma OneBumpNow(act: map<CRef, real>, inc: real, ls: seq<CRef>, cr: CRef)
      requires Different(ls + [cr]) && forall i :: 0 <= i < |ls| ==> ls[i] in act
      requires ClausesBumped(act[cr := 0.0], inc, ca.act, claInc, ls + [cr], {cr})
      ensures ClausesBumped(act, inc, ca.act, claInc, ls, {}) && OneBump(cr)
    {
      NewClauseBumped(act, inc, ca.act, claInc, ls, cr);
    }

    lemma LearnFacts(c: seq<Lit>)
      requires StateInv() && ca.Valid() && qhead == |trail| && Learnable(c)
      ensures OccKeys(watches.occs, |assigns|) && ca.sz !in ca.mem
      ensures (forall i :: 0 <= i < |learnts| ==> learnts[i] in ca.act) && Different(learnts + [ca.sz])
      ensures Neg(c[0]) in watches.occs && Neg(c[1]) in watches.occs && |vardata| == |assigns| == |pos|
      ensures var d := Clause(c, true, 0);
              StateOK(added, ca.mem[ca.sz := d], Attached(watches.occs, ca.sz, c), watches.dirty,
                  Enqueued(T(), c[0], ca.sz), clauses, learnts + [ca.sz], ca.sz + Words(d), ca.wasted, qhead)
    {
      LearnState(added, ca.mem, watches.occs, watches.dirty, T(), clauses, learnts, ca.sz, ca.wasted, c);
      StateActivities(added, ca.mem, watches.occs, watches.dirty, T(), clauses, learnts, ca.sz, ca.wasted, qhead,
          ca.act);
    }

    /** A fact is not stored, any other clause to learn joins the database as a learnt clause. */
    ghost predicate Stored(c: seq<Lit>, cr: CRef, mem0: Memory, learnts0: seq<CRef>)
      reads `learnts, ca`mem
    {
      if |c| == 1 then cr == CREF_UNDEF && ca.mem == mem0 && learnts == learnts0
      else cr != CREF_UNDEF && ca.mem == mem0[cr := Clause(c, true, 0)] && learnts == learnts0 + [cr]
    }

    /** Adds a learnt clause and asserts its first literal. */
    method Learn(c: seq<Lit>) returns (ghost cr: CRef)
      requires Inv() && Learnable(c) && qhead == |trail|
      modifies `assigns, `vardata, `trail, `pos, `learnts, `claInc, ca, watches`occs
      ensures Inv() && T() == Enqueued(old(T()), c[0], cr)
      ensures cr != CREF_UNDEF && Stored(c, cr, old(ca.mem), old(learnts))
      ensures ClausesBumped(old(ca.act), old(claInc), ca.act, claInc, old(learnts), {}) && OneBump(cr)
    {
      hide Inv, StateOK, OccKeys, HeapInv, Implied, Distinct, ClauseAllocator.Valid, OccLists.Valid, Different,
           ClausesBumped, OneBump;
      InvState();
      LearnFacts(c);
      var r := AddLearnt(c);
      cr := r;
      UncheckedEnqueue(c[0], r);
      StateGivesInv();
    }

    method DecayActivities()
      requires Inv()
      modifies `varInc, `claInc
      ensures Inv() && varDecay > 0.0 && clauseDecay > 0.0
      ensures varInc == Ratio(old(varInc), varDecay) && claInc == Ratio(old(claInc), clauseDecay)
      ensures Undecayed(varInc, varDecay) == old(varInc) && Undecayed(claInc, clauseDecay) == old(claInc)
    {
      hide WatchOK, PropOK, ReasonsOK, DbOK, Sound, Complete, TrailOK, RefsOK, Balanced, OccKeys, MarksOK, Ordered,
           Inverse;
      DecayedBack(varInc, varDecay);
      DecayedBack(claInc, clauseDecay);
      varInc := varInc / varDecay;
      claInc := claInc / clauseDecay;
    }

    // The analysis leaves the search state as it is.
    method AnalyzeInv(confl: CRef) returns (c: seq<Lit>, btlevel: nat, ghost at: nat)
      requires CoreInv() && Conflict(confl) && |trailLim| > 0
      modifies `seen, `activity, `varInc, `claInc, `analyzeStack, `analyzeToclear, order, ca`act
      ensures CoreInv() && Implied(added, c) && Asserting(T(), c, btlevel)
      ensures Learned(ccminMode, added, ca.mem, T(), confl, c)
      ensures FirstIndex(ca.mem, T(), ConflictVars(ca.mem, T(), confl), at)
      ensures Bumped(old(activity), old(varInc), activity, varInc,
                  InvolvedVars(ca.mem, T(), ConflictVars(ca.mem, T(), confl), at + 1))
      ensures ClausesBumped(old(ca.act), old(claInc), ca.act, claInc, learnts, Resolvents(ca.mem, T(), confl, at + 1))
    {
      hide FirstIndex, Bumped, ClausesBumped, InvolvedVars, Resolvents, ConflictVars, Learned, HeapInv, WatchOK,
           ReasonsOK, DbOK, Sound, Complete, TrailOK, RefsOK, Implied, Asserting, Balanced, OccKeys, MarksOK, Ordered,
           Inverse;
      TrailLens(T());
      LearntActivities(ca.mem, ca.act, learnts);
      c, btlevel, at := Analyze(confl);
    }

    // The asserting clause is ready: as a fact, or as a learnt clause.
    ghost predicate Assertable(c: seq<Lit>)
      reads `assigns, `vardata, `trail, `trailLim, `pos, `added
    {
      && |c| >= 1 && c[0].v < |assigns| && T().Val(c[0]) == Undef
      && (if |c| == 1 then |trailLim| == 0 && Implied(added, [c[0]]) else Learnable(c))
    }

    method AssertClause(c: seq<Lit>) returns (ghost cr: CRef)
      requires Inv() && Assertable(c) && qhead == |trail|
      modifies `assigns, `vardata, `trail, `pos, `learnts, `claInc, ca, watches`occs
      ensures Inv() && T() == Enqueued(old(T()), c[0], cr) && (cr == CREF_UNDEF ==> |trailLim| == 0)
      ensures Stored(c, cr, old(ca.mem), old(learnts))
      ensures ClausesBumped(old(ca.act), old(claInc), ca.act, claInc, old(learnts), {})
      ensures cr != CREF_UNDEF ==> OneBump(cr)
    {
      hide Inv, Implied, Distinct, ClausesBumped, OneBump;
      if |c| == 1 {
        InvActivities();
        EnqueueFact(c[0]);
        cr := CREF_UNDEF;
      } else {
        cr := Learn(c);
      }
    }

    lemma InvActivities()
      requires Inv()
      ensures ClausesBumped(ca.act, claInc, ca.act, claInc, learnts, {})
    {
      LearntActivities(ca.mem, ca.act, learnts);
      ClausesBumpedNone(ca.act, claInc, learnts);
    }

    // Back to the level of the asserting clause c.
    method Backjump(c: seq<Lit>, btlevel: nat)
      requires CoreInv() && PropOK(ca.mem, T(), T().LevelStart()) && Asserting(T(), c, btlevel) && Implied(added, c)
      modifies `assigns, `polarity, `trail, `trailLim, `qhead, order
      ensures Inv() && Assertable(c) && qhead == |trail| && T() == Cancelled(old(T()), btlevel)
      ensures btlevel < |old(trailLim)| && old(trailLim)[btlevel] <= |old(trail)|
      ensures |c| >= 1 && c[0].v < |old(assigns)| == |old(vardata)| == |old(pos)| && (|c| == 1 ==> btlevel == 0)
      ensures T().Val(c[0]) == Undef
    {
      hide WatchOK, PropOK, ReasonsOK, DbOK, Sound, Complete, TrailOK, RefsOK, Implied, Asserting, Balanced, OccKeys,
           MarksOK, HeapInv, Distinct;
      ghost var t := T();
      CoreTrail();
      AssertingFacts(t, c, btlevel);
      CancelInv(btlevel, t.LevelStart());
      assert |c| == 1 ==> c == [c[0]];
    }

    lemma CoreTrail()
      requires CoreInv()
      ensures TrailOK(T())
    {
    }

    /** A conflict above level 0: analyse, backtrack, learn the clause c. */
    method ResolveConflict(confl: CRef) returns (ghost level: nat, ghost c: seq<Lit>, ghost cr: CRef, ghost at: nat)
      requires CoreInv() && Propagated(confl) && confl != CREF_UNDEF && |trailLim| > 0
      modifies `assigns, `vardata, `trail, `trailLim, `pos, `qhead, `polarity, `learnts, `seen, `activity, `varInc,
               `claInc, `analyzeStack, `analyzeToclear, ca, watches`occs, order
      ensures Inv() && level < |old(trailLim)| && old(trailLim)[level] <= |old(trail)|
      ensures |c| >= 1 && c[0].v < |old(assigns)| == |old(vardata)| == |old(pos)|
      ensures T() == Enqueued(Cancelled(old(T()), level), c[0], cr)
      ensures Cancelled(old(T()), level).Val(c[0]) == Undef && (cr == CREF_UNDEF ==> level == 0)
      ensures Learned(ccminMode, added, old(ca.mem), old(T()), confl, c) && Asserting(old(T()), c, level)
      ensures Stored(c, cr, old(ca.mem), old(learnts))
      ensures FirstIndex(old(ca.mem), old(T()), ConflictVars(old(ca.mem), old(T()), confl), at)
      ensures Bumped(old(activity), old(varInc), activity, Undecayed(varInc, varDecay),
                  InvolvedVars(old(ca.mem), old(T()), ConflictVars(old(ca.mem), old(T()), confl), at + 1))
      ensures ClausesBumped(old(ca.act), old(claInc), ca.act, Undecayed(claInc, clauseDecay), old(learnts),
                  Resolvents(old(ca.mem), old(T()), confl, at + 1))
      ensures cr != CREF_UNDEF ==> cr in ca.act && ca.act[cr] == Undecayed(claInc, clauseDecay)
    {
      hide Inv, CoreInv, Learned, PropOK, Implied, Asserting, Assertable, Conflict, Stored, FirstIndex, Bumped,
           ClausesBumped, InvolvedVars, Resolvents, ConflictVars, OneBump, Undecayed, Ratio;
      ghost var act0, inc0, ls := ca.act, claInc, learnts;
      var learnt, btlevel;
      learnt, btlevel, at := AnalyzeInv(confl);
      ghost var act1, inc1 := ca.act, claInc;
      ghost var R := Resolvents(ca.mem, T(), confl, at + 1);
      Backjump(learnt, btlevel);
      level, c := btlevel, learnt;
      cr := AssertClause(learnt);
      ClausesBumpedTrans(act0, inc0, act1, inc1, ca.act, claInc, ls, R, {});
      assert R + {} == R;
      if cr != CREF_UNDEF { OneBumpIs(cr); }
      DecayActivities();
    }

    lemma OneBumpIs(cr: CRef)
      requires OneBump(cr)
      ensures cr in ca.act && ca.act[cr] == claInc
    {
      RatioOne(ca.act[cr], claInc);
    }

    // ---------- removing clauses ----------

    // Whether cr is the reason of its first literal.
    predicate IsLocked(cr: CRef)
      requires cr in ca.mem && |ca.mem[cr].lits| > 0 && ca.mem[cr].lits[0].v < |assigns| == |vardata|
      reads `assigns, `vardata, `trail, `trailLim, `pos, ca`mem
      ensures cr != CREF_UNDEF ==> (IsLocked(cr) <==> Locked(T(), ca.mem[cr].lits, cr))
    {
      var p := ca.mem[cr].lits[0];
      Value(p) == True && vardata[p.v].reason != CREF_UNDEF && vardata[p.v].reason == cr
    }

    method RemoveClause(cr: CRef)
      requires ca.Valid() && watches.Valid() && Live(ca.mem, cr) && ClauseOK(ca.mem[cr].lits, |assigns|)
      requires OccKeys(watches.occs, |assigns|) && |vardata| == |assigns| && cr != CREF_UNDEF
      modifies ca`mem, ca`wasted, watches`dirty, watches`dirties, `vardata
      ensures ca.Valid() && watches.Valid() && ca.mem == Deleting(old(ca.mem), cr)
      ensures ca.wasted == old(ca.wasted) + Words(old(ca.mem)[cr])
      ensures var c := old(ca.mem)[cr].lits;
              watches.dirty == old(watches.dirty) + {Neg(c[0]), Neg(c[1])} && T() == Released(old(T()), c, cr)
    {
      var c := ca.mem[cr].lits;
      watches.Smudge(Neg(c[0]));
      watches.Smudge(Neg(c[1]));
      if IsLocked(cr) {
        vardata := vardata[c[0].v := vardata[c[0].v].(reason := CREF_UNDEF)];
      }
      ca.Free(cr);
      ca.MarkDeleted(cr);
    }

    // The invariant with cs as the list of learnt (or problem) clauses and ds as the other list.
    ghost predicate ListedInv(cs: seq<CRef>, ds: seq<CRef>, learnt: bool)
      reads `assigns, `vardata, `trail, `trailLim, `pos, `qhead, `activity, `varInc, `decision, `seen, `polarity,
            `varDecay, `clauseDecay, `added, `claInc, ca, watches, order
    {
      && (if learnt then CoreWith(ds, cs) else CoreWith(cs, ds))
      && PropOK(ca.mem, T(), qhead)
    }

    lemma ListedFacts(cs: seq<CRef>, ds: seq<CRef>, learnt: bool, j: nat)
      requires ListedInv(cs, ds, learnt) && j < |cs|
      ensures Live(ca.mem, cs[j]) && ca.mem[cs[j]].learnt == learnt && ClauseOK(ca.mem[cs[j]].lits, |assigns|)
      ensures cs[j] != CREF_UNDEF
    {
      ListedClause(ca.mem, cs, learnt, |assigns|, j);
    }

    /** Removes the j-th listed clause: one that is true at level 0, or a learnt clause that is
        no reason. */
    method RemoveListed(cs: seq<CRef>, j: nat, learnt: bool, ghost ds: seq<CRef>)
      requires ListedInv(cs, ds, learnt) && j < |cs| && cs[j] in ca.mem
      requires FixedTrue(T(), ca.mem[cs[j]].lits) || learnt
      requires Locked(T(), ca.mem[cs[j]].lits, cs[j]) ==> |trailLim| == 0
      modifies ca`mem, ca`wasted, watches`dirty, watches`dirties, `vardata
      ensures ListedInv(Without(cs, j), ds, learnt) && |trail| == |old(trail)|
      ensures T() == Released(old(T()), old(ca.mem)[cs[j]].lits, cs[j])
      ensures ca.mem == Deleting(old(ca.mem), cs[j])
    {
      hide WatchOK, PropOK, ReasonsOK, DbOK, DatabaseOK, TrailOK, OccKeys, HeapInv, Distinct, InRange, FixedTrue;
      ghost var t, mem := T(), ca.mem;
      var cr := cs[j];
      ListedFacts(cs, ds, learnt, j);
      TrailLens(t);
      DeleteCore(mem, watches.occs, watches.dirty, t, qhead, cr);
      if learnt {
        RemoveLearnt(added, mem, ds, cs, t, ca.sz, ca.wasted, j);
      } else {
        RemoveProblem(added, mem, cs, ds, t, ca.sz, ca.wasted, j);
      }
      RemoveClause(cr);
    }

    // Whether some literal of the clause is true.
    method Satisfied(c: seq<Lit>) returns (sat: bool)
      requires InRange(c, |assigns|)
      ensures sat <==> SatisfiedNow(T(), c)
    {
      for i := 0 to |c|
        invariant forall k :: 0 <= k < i ==> T().Val(c[k]) != True
      {
        if Value(c[i]) == True {
          return true;
        }
      }
      sat := false;
    }

    lemma RootSatisfied(c: seq<Lit>)
      requires TrailOK(T()) && |trailLim| == 0 && SatisfiedNow(T(), c)
      ensures FixedTrue(T(), c)
    {
      var p :| p in c && T().Val(p) == True;
      assert T().Assigned(p.v) && LevelOK(T(), p.v);
    }

    // Removes the j-th listed clause if it is satisfied.
    method RemoveIfSatisfied(cs: seq<CRef>, j: nat, learnt: bool, ghost ds: seq<CRef>, ghost mem: Memory,
            ghost t: TrailState)
      returns (sat: bool)
      requires ListedInv(cs, ds, learnt) && |trailLim| == 0 && j < |cs|
      requires SameButReasons(t, T()) && SameContents(mem, ca.mem)
      modifies ca`mem, ca`wasted, watches`dirty, watches`dirties, `vardata
      ensures ListedInv(if sat then Without(cs, j) else cs, ds, learnt)
      ensures SameButReasons(t, T()) && SameContents(mem, ca.mem)
      ensures sat <==> cs[j] in mem && SatisfiedNow(t, mem[cs[j]].lits)
    {
      hide WatchOK, PropOK, ReasonsOK, DbOK, DatabaseOK, OccKeys, OrderInv, Distinct, FixedTrue, SatisfiedNow, LevelOK,
           ListedInv;
      ListedFacts(cs, ds, learnt, j);
      ListedTrail(cs, ds, learnt);
      ghost var u := T();
      var c := ca.mem[cs[j]].lits;
      SameSatisfied(t, u);
      sat := Satisfied(c);
      if sat {
        RootSatisfied(c);
        ReleasedSame(u, c, cs[j]);
        RemoveListed(cs, j, learnt, ds);
        SameTrans(t, u, T());
      }
    }

    /** At level 0: drops exactly the satisfied clauses from one of the lists. */
    method RemoveSatisfied(cs0: seq<CRef>, learnt: bool, ghost ds: seq<CRef>) returns (cs: seq<CRef>)
      requires ListedInv(cs0, ds, learnt) && |trailLim| == 0
      modifies ca`mem, ca`wasted, watches`dirty, watches`dirties, `vardata
      ensures ListedInv(cs, ds, learnt) && SameButReasons(old(T()), T()) && SameContents(old(ca.mem), ca.mem)
      ensures cs == Unsatisfied(old(ca.mem), old(T()), cs0, |cs0|)
    {
      hide ListedInv, SatisfiedNow, SameButReasons, Unsatisfied, Compacted, SameContents;
      ghost var mem, t := ca.mem, T();
      cs := cs0;
      var i: nat, j: nat := 0, 0;
      SqueezeEnds(cs);
      SameRefl(t);
      StartUnsatisfied(mem, t, cs0);
      while i < |cs|
        invariant j <= i <= |cs| == |cs0| && ListedInv(Compacted(cs, i, j), ds, learnt)
        invariant SameButReasons(t, T()) && SameContents(mem, ca.mem)
        invariant forall k :: i <= k < |cs| ==> cs[k] == cs0[k]
        invariant cs[..j] == Unsatisfied(mem, t, cs0, i)
      {
        SqueezeDrop(cs, i, j);
        SqueezeKeep(cs, i, j);
        UnsatisfiedNext(mem, t, cs0, cs, i, j);
        var sat := RemoveIfSatisfied(Compacted(cs, i, j), j, learnt, ds, mem, t);
        if !sat {
          cs := cs[j := cs[i]];
          j := j + 1;
        }
        i := i + 1;
      }
      SqueezeEnds(cs);
      cs := cs[..j];
    }

    lemma ListedTrail(cs: seq<CRef>, ds: seq<CRef>, learnt: bool)
      requires ListedInv(cs, ds, learnt)
      ensures TrailOK(T())
    {
    }

    // ---------- garbage collection ----------

    // Relocation so far: only live clauses have been moved.
    ghost predicate Relocated(to: ClauseAllocator)
      reads ca, to
    {
      ca != to && ca.RelocInv(to) && forall cr :: cr in ca.fwd ==> Live(ca.mem, cr)
    }

    // Renames the references of one watch list.
    method RelocList(l: Lit, to: ClauseAllocator)
      requires Relocated(to) && watches.Valid() && l in watches.occs && ListOK(ca.mem, watches.occs[l], l, false)
      modifies watches`occs, ca`fwd, to
      ensures Relocated(to) && watches.Valid() && ForwardsMore(old(ca.fwd), ca.fwd)
      ensures watches.occs.Keys == old(watches.occs).Keys
      ensures forall m :: m in watches.occs && m != l ==> watches.occs[m] == old(watches.occs)[m]
      ensures RenamedList(old(watches.occs)[l], watches.occs[l], ca.fwd)
    {
      hide ClauseAllocator.RelocInv;
      ghost var ws := watches.occs[l];
      var end := |watches.occs[l]|;
      for j := 0 to end
        invariant Relocated(to) && watches.Valid() && ForwardsMore(old(ca.fwd), ca.fwd)
        invariant watches.occs.Keys == old(watches.occs).Keys && |watches.occs[l]| == |ws|
        invariant forall m :: m in watches.occs && m != l ==> watches.occs[m] == old(watches.occs)[m]
        invariant forall k :: j <= k < |ws| ==> watches.occs[l][k] == ws[k]
        invariant forall k :: 0 <= k < j ==>
          ws[k].cref in ca.fwd && watches.occs[l][k] == Watcher(ca.fwd[ws[k].cref], ws[k].blocker)
      {
        var w := watches.occs[l][j];
        assert WatcherOK(ca.mem, ws[j], l, false);
        var r := ca.Reloc(w.cref, to);
        watches.Put(l, j, Watcher(r, w.blocker));
      }
    }

    // Renames the references of all watch lists.
    method RelocWatches(to: ClauseAllocator)
      requires Relocated(to) && watches.Valid() && OccKeys(watches.occs, |assigns|) && WatchOK(ca.mem, watches.occs, {})
      modifies watches`occs, ca`fwd, to
      ensures Relocated(to) && watches.Valid() && RenamedOccs(old(watches.occs), watches.occs, ca.fwd)
      ensures Moved(ca.mem, ca.fwd, to.mem)
    {
      hide ClauseAllocator.RelocInv, ListOK;
      ghost var occs := watches.occs;
      for v := 0 to |assigns|
        invariant Relocated(to) && watches.Valid() && RenamedBelow(occs, watches.occs, ca.fwd, v)
      {
        ghost var occs0, fwd0 := watches.occs, ca.fwd;
        WatchListOK(ca.mem, occs, |assigns|, v);
        RelocList(Lit(v, false), to);
        ghost var occs1, fwd1 := watches.occs, ca.fwd;
        RelocList(Lit(v, true), to);
        RenamedNext(occs, occs0, occs1, watches.occs, fwd0, fwd1, ca.fwd, v);
      }
      assert RenamedOccs(occs, watches.occs, ca.fwd);
      RelocFacts(to);
      WatchedMoved(ca.mem, occs, watches.occs, ca.fwd, to.mem);
    }

    lemma WatchListOK(mem: Memory, occs: map<Lit, seq<Watcher>>, n: nat, v: nat)
      requires WatchOK(mem, occs, {}) && OccKeys(occs, n) && v < n
      ensures Lit(v, false) in occs && ListOK(mem, occs[Lit(v, false)], Lit(v, false), false)
      ensures Lit(v, true) in occs && ListOK(mem, occs[Lit(v, true)], Lit(v, true), false)
    {
      assert ListOK(mem, occs[Lit(v, false)], Lit(v, false), Lit(v, false) in {});
      assert ListOK(mem, occs[Lit(v, true)], Lit(v, true), Lit(v, true) in {});
    }

    lemma RelocFacts(to: ClauseAllocator)
      requires ca.RelocInv(to)
      ensures Relocating(ca.mem, ca.fwd, to.mem)
    {
    }

    // Renames the reasons of the assigned variables.
    method RelocReasons(to: ClauseAllocator)
      requires Relocated(to) && TrailOK(T()) && ReasonsOK(ca.mem, T()) && Moved(ca.mem, ca.fwd, to.mem)
      requires CREF_UNDEF !in ca.mem
      modifies `vardata, ca`fwd, to
      ensures Relocated(to) && Moved(ca.mem, ca.fwd, to.mem) && ca.fwd == old(ca.fwd)
      ensures RenamedTrail(old(T()), T(), ca.fwd)
    {
      hide ClauseAllocator.RelocInv, Relocating, TrailOK, ReasonsOK;
      ghost var t := T();
      TrailLens(t);
      for i := 0 to |trail|
        invariant Relocated(to) && Moved(ca.mem, ca.fwd, to.mem) && ca.fwd == old(ca.fwd)
        invariant RenamedReasons(t, T(), ca.fwd, i)
      {
        RenameStep(ca.mem, t, T(), ca.fwd, i);
        var v := trail[i].v;
        var r := vardata[v].reason;
        ReasonStillLocked(ca.mem, t, T(), ca.fwd, i);
        if r != CREF_UNDEF && (r in ca.fwd || IsLocked(r)) {
          ReasonMoved(ca.mem, t, ca.fwd, to.mem, v);
          ghost var fwd := ca.fwd;
          var r' := ca.Reloc(r, to);
          SameForward(fwd, ca.fwd, r);
          RelocFacts(to);
          vardata := vardata[v := VarData(r', vardata[v].level)];
        } else {
          assert vardata == vardata[v := VarData(CREF_UNDEF, vardata[v].level)];
        }
      }
      ReasonsRenamed(ca.mem, t, T(), ca.fwd, to.mem);
    }

    // Renames a list of clause references.
    method RelocRefs(cs0: seq<CRef>, to: ClauseAllocator, ghost learnt: bool) returns (cs: seq<CRef>)
      requires Relocated(to) && Moved(ca.mem, ca.fwd, to.mem) && RefsOK(ca.mem, cs0, learnt)
      modifies ca`fwd, to
      ensures Relocated(to) && Moved(ca.mem, ca.fwd, to.mem) && ca.fwd == old(ca.fwd)
      ensures RenamedRefs(cs0, cs, ca.fwd)
    {
      hide ClauseAllocator.RelocInv, Relocating;
      cs := cs0;
      for i := 0 to |cs|
        invariant Relocated(to) && Moved(ca.mem, ca.fwd, to.mem) && ca.fwd == old(ca.fwd) && |cs| == |cs0|
        invariant forall k :: i <= k < |cs| ==> cs[k] == cs0[k]
        invariant forall k :: 0 <= k < i ==> cs0[k] in ca.fwd && cs[k] == ca.fwd[cs0[k]]
      {
        assert cs0[i] in cs0;
        ghost var fwd := ca.fwd;
        var r := ca.Reloc(cs[i], to);
        SameForward(fwd, ca.fwd, cs0[i]);
        RelocFacts(to);
        cs := cs[i := r];
      }
    }

    lemma StartRelocated(to: ClauseAllocator)
      requires to != ca && ca.Valid() && ca.fwd == map[] && to.Valid() && to.mem == map[] && to.fwd == map[]
      requires to.sz == 0 && to.wasted == 0
      ensures Relocated(to)
    {
      StartReloc(ca.mem, ca.act);
      assert ca.fwd.Keys == {};
      assert to.mem == map[];
    }

    lemma RelocatedFacts(to: ClauseAllocator)
      requires Relocated(to)
      ensures to.Valid() && to.wasted == 0 && to.fwd == map[] && to.sz == SetWords(ca.mem, ca.fwd.Keys)
          && CREF_UNDEF !in to.mem
      ensures SameActivities(ca.mem, ca.act, ca.fwd, to.act)
    {
    }

    // What the relocation needs of the invariant.
    lemma InvParts()
      requires Inv()
      ensures ca.Valid() && ca.fwd == map[] && watches.Valid() && OccKeys(watches.occs, |assigns|)
      ensures WatchOK(ca.mem, watches.occs, watches.dirty) && MarksOK(ca.mem) && CREF_UNDEF !in ca.mem
      ensures TrailOK(T()) && ReasonsOK(ca.mem, T()) && DbOK(ca.mem, |assigns|) && PropOK(ca.mem, T(), qhead)
      ensures RefsOK(ca.mem, clauses, false) && RefsOK(ca.mem, learnts, true)
      ensures DatabaseOK(added, ca.mem, clauses, learnts, T(), ca.sz, ca.wasted)
      ensures claInc > 0.0 && OrderInv() && ScratchInv() && T().LevelStart() <= qhead <= |trail|
    {
    }

    lemma TrailRenamed(t: TrailState, fwd: Forward)
      requires RenamedTrail(t, T(), fwd)
      ensures assigns == t.assigns && trailLim == t.lim && trail == t.trail
    {
    }

    // Empties the dirty lists of deleted watchers.
    method CleanWatches()
      requires watches.Valid() && OccKeys(watches.occs, |assigns|)
      requires WatchOK(ca.mem, watches.occs, watches.dirty) && MarksOK(ca.mem)
      modifies watches
      ensures watches.Valid() && watches.dirty == {} && OccKeys(watches.occs, |assigns|)
      ensures watches.occs == Cleaned(ca.mem, old(watches.occs), old(watches.dirty))
          && WatchOK(ca.mem, watches.occs, {})
    {
      hide WatchOK, OccKeys, Cleaned;
      CleanWatch(ca.mem, watches.occs, watches.dirty);
      CleanKeys(ca.mem, watches.occs, watches.dirty, |assigns|);
      watches.CleanAll(ca.mem);
    }

    // Moves every live clause to the region to and renames every reference.
    method RelocAll(to: ClauseAllocator)
      requires Inv() && to != ca && to.Valid() && to.mem == map[] && to.fwd == map[]
      requires to.sz == 0 && to.wasted == 0
      modifies watches, ca`fwd, to, `vardata, `learnts, `clauses
      ensures Relocated(to) && Moved(ca.mem, ca.fwd, to.mem) && watches.Valid() && watches.dirty == {}
      ensures RenamedOccs(Cleaned(ca.mem, old(watches.occs), old(watches.dirty)), watches.occs, ca.fwd)
      ensures RenamedTrail(old(T()), T(), ca.fwd)
      ensures RenamedRefs(old(clauses), clauses, ca.fwd) && RenamedRefs(old(learnts), learnts, ca.fwd)
      ensures WatchOK(ca.mem, Cleaned(ca.mem, old(watches.occs), old(watches.dirty)), {})
    {
      hide Inv, WatchOK, PropOK, ReasonsOK, DbOK, TrailOK, DatabaseOK, OccKeys, RefsOK, MarksOK, Relocating, Moved,
           RenamedTrail, RenamedOccs, RenamedRefs, Cleaned, Relocated, OccLists.Valid, ClauseAllocator.Valid,
           ClauseAllocator.RelocInv;
      InvParts();
      StartRelocated(to);
      CleanWatches();
      RelocWatches(to);
      RelocReasons(to);
      learnts := RelocRefs(learnts, to, true);
      clauses := RelocRefs(clauses, to, false);
    }

    /** Copying garbage collection: every reference denotes the same clause as before, and the
        region shrinks by exactly what was wasted. */
    method GarbageCollect() returns (ghost fwd: Forward)
      requires Inv()
      modifies watches, ca, `vardata, `learnts, `clauses
      ensures Inv()
      ensures Moved(old(ca.mem), fwd, ca.mem) && SameActivities(old(ca.mem), old(ca.act), fwd, ca.act)
      ensures RenamedOccs(Cleaned(old(ca.mem), old(watches.occs), old(watches.dirty)), watches.occs, fwd)
      ensures RenamedTrail(old(T()), T(), fwd)
      ensures RenamedRefs(old(clauses), clauses, fwd) && RenamedRefs(old(learnts), learnts, fwd)
      ensures ca.wasted == 0 && ca.sz + old(ca.wasted) == old(ca.sz)
    {
      hide Inv, WatchOK, StateOK, OccKeys, Relocating, Moved, SameActivities, RenamedRefs, RenamedOccs, RenamedTrail,
           Cleaned, HeapInv, Relocated, ClauseAllocator.RelocInv, ClauseAllocator.Valid, OccLists.Valid;
      InvState();
      ghost var t, mem, occs, dirty := T(), ca.mem, watches.occs, watches.dirty;
      ghost var cs, ls, sz, wasted := clauses, learnts, ca.sz, ca.wasted;
      var to := new ClauseAllocator();
      RelocAll(to);
      RelocatedFacts(to);
      fwd := ca.fwd;
      TrailRenamed(t, fwd);
      MoveState(added, mem, occs, dirty, t, cs, ls, sz, wasted, qhead, fwd, to.mem, watches.occs, T(), clauses,
          learnts);
      to.MoveTo(ca);
      StateGivesInv();
    }

    // More is wasted than the fraction of the region that may be.
    predicate Wasteful()
      reads `garbageFrac, ca`sz, ca`wasted
    {
      ca.wasted as real > ca.sz as real * garbageFrac
    }

    lemma NoWaste()
      requires ca.wasted == 0 && garbageFrac >= 0.0
      ensures !Wasteful()
    {
    }

    /** Collects garbage if and only if more is wasted than may be. */
    method CheckGarbage()
      requires Inv()
      modifies watches, ca, `vardata, `learnts, `clauses
      ensures Inv() && SameButReasons(old(T()), T())
      ensures Texts(ca.mem, learnts) == Texts(old(ca.mem), old(learnts))
      ensures Texts(ca.mem, clauses) == Texts(old(ca.mem), old(clauses))
      ensures if old(Wasteful()) then ca.wasted == 0 && ca.sz + old(ca.wasted) == old(ca.sz)
              else ca.mem == old(ca.mem) && clauses == old(clauses) && learnts == old(learnts) && T() == old(T())
      ensures garbageFrac >= 0.0 ==> !Wasteful()
    {
      hide Inv, SameButReasons, Moved, RenamedRefs, RenamedTrail, Texts, Wasteful;
      SameRefl(T());
      ghost var mem, t := ca.mem, T();
      ghost var cs, ls := clauses, learnts;
      if Wasteful() {
        InvState();
        ghost var fwd := GarbageCollect();
        InvState();
        if garbageFrac >= 0.0 { NoWaste(); }
        RenamedSame(mem, fwd, ca.mem, t, T());
        TextsMoved(mem, fwd, ca.mem, cs, clauses);
        TextsMoved(mem, fwd, ca.mem, ls, learnts);
      }
    }

    // Fills the heap with the unassigned decision variables.
    method RebuildOrderHeap()
      requires OrderInv()
      modifies order
      ensures OrderInv()
      ensures forall v: nat :: order.InHeap(v) <==> v < |assigns| && decision[v] && assigns[v] == Undef
    {
      var vs: seq<nat> := [];
      for v := 0 to |assigns|
        invariant forall i :: 0 <= i < |vs| ==> vs[i] < v && decision[vs[i]] && assigns[vs[i]] == Undef
        invariant forall x :: 0 <= x < v && decision[x] && assigns[x] == Undef ==> x in vs
        invariant forall i, j :: 0 <= i < j < |vs| ==> vs[i] != vs[j]
      {
        if decision[v] && assigns[v] == Undef {
          vs := vs + [v];
        }
      }
      order.Build(activity, vs);
    }

    // ---------- reducing the learnt clauses ----------

    lemma SortedInv(s: seq<CRef>)
      requires Inv() && multiset(s) == multiset(learnts)
      ensures ListedInv(s, clauses, true)
    {
      PermutedLearnts(added, ca.mem, clauses, learnts, s, T(), ca.sz, ca.wasted);
    }

    // The learnt clauses in the order of reduction.
    method SortLearnts() returns (s: seq<CRef>)
      requires Inv()
      ensures ListedInv(s, clauses, true) && multiset(s) == multiset(learnts)
      ensures Sorted(ReduceOrder(ca.mem, ca.act), s)
    {
      hide Inv, StateOK, RefsOK, DbOK, ReduceOrder, ListedInv, Size;
      InvParts();
      LearntSizes(ca.mem, learnts, |assigns|);
      s := SortReduce(learnts, ca.mem, ca.act);
      SortedInv(s);
    }

    // Removes the j-th learnt clause if it is expendable.
    method RemoveIfExpendable(ls: seq<CRef>, j: nat, lim: real, early: bool, ghost mem: Memory) returns (drop: bool)
      requires ListedInv(ls, clauses, true) && j < |ls| && SameContents(mem, ca.mem)
      modifies ca`mem, ca`wasted, watches`dirty, watches`dirties, `vardata
      ensures ListedInv(if drop then Without(ls, j) else ls, clauses, true) && SameContents(mem, ca.mem)
      ensures T() == old(T()) && drop == Expendable(mem, ca.act, T(), ls[j], lim, early)
    {
      hide WatchOK, PropOK, ReasonsOK, DbOK, DatabaseOK, OccKeys, OrderInv, Distinct, FixedTrue, SatisfiedNow, LevelOK;
      ListedFacts(ls, clauses, true, j);
      TrailLens(T());
      var cr := ls[j];
      var c := ca.mem[cr].lits;
      drop := |c| > 2 && !IsLocked(cr) && (early || Activity(ca.act, cr) < lim);
      if drop {
        RemoveListed(ls, j, true, clauses);
      }
    }

    // Drops the expendable clauses of a list of all learnt clauses.
    method SweepExpendable(s: seq<CRef>, lim: real) returns (ls: seq<CRef>)
      requires ListedInv(s, clauses, true)
      modifies ca`mem, ca`wasted, watches`dirty, watches`dirties, `vardata
      ensures ListedInv(ls, clauses, true) && T() == old(T()) && SameContents(old(ca.mem), ca.mem)
      ensures ls == Survivors(old(ca.mem), ca.act, T(), s, lim, |s|)
    {
      hide ListedInv, Expendable, Survivors, Compacted, SameContents;
      ghost var mem, t := ca.mem, T();
      ls := s;
      var i: nat, j: nat := 0, 0;
      SqueezeEnds(ls);
      StartSurvivors(mem, ca.act, t, s, lim);
      while i < |ls|
        invariant j <= i <= |ls| == |s| && ListedInv(Compacted(ls, i, j), clauses, true)
        invariant T() == t && SameContents(mem, ca.mem)
        invariant forall k :: i <= k < |ls| ==> ls[k] == s[k]
        invariant ls[..j] == Survivors(mem, ca.act, t, s, lim, i)
      {
        SqueezeDrop(ls, i, j);
        SqueezeKeep(ls, i, j);
        SurvivorsNext(mem, ca.act, t, s, lim, ls, i, j);
        var drop := RemoveIfExpendable(Compacted(ls, i, j), j, lim, i < |ls| / 2, mem);
        if !drop {
          ls := ls[j := ls[i]];
          j := j + 1;
        }
        i := i + 1;
      }
      SqueezeEnds(ls);
      ls := ls[..j];
    }

    lemma SortedReduced(s: seq<CRef>, lim: real)
      requires Inv() && multiset(s) == multiset(learnts) && Sorted(ReduceOrder(ca.mem, ca.act), s)
      ensures Reduced(ca.mem, ca.act, T(), s, lim, Survivors(ca.mem, ca.act, T(), s, lim, |s|))
    {
      hide StateOK, WatchOK, PropOK, ReasonsOK, TrailOK, Reduced, Survivors, ReduceOrder, Sorted;
      InvState();
      PermutedRefs(ca.mem, learnts, s, true);
      SurvivorsReduced(ca.mem, ca.act, T(), s, lim);
    }

    /** Drops the learnt clauses that nothing spares from the first half of the sorted list, and
        inactive ones from the rest. */
    method ReduceLearnts() returns (ghost s: seq<CRef>, lim: real)
      requires Inv()
      modifies ca`mem, ca`wasted, watches`dirty, watches`dirties, `vardata, `learnts
      ensures Inv() && T() == old(T())
      ensures multiset(s) == multiset(old(learnts)) && Sorted(ReduceOrder(old(ca.mem), ca.act), s)
      ensures lim == Share(claInc, |old(learnts)|)
      ensures Reduced(old(ca.mem), ca.act, T(), s, lim, learnts)
      ensures learnts == Survivors(old(ca.mem), ca.act, T(), s, lim, |s|)
      ensures SameContents(old(ca.mem), ca.mem)
    {
      hide ListedInv, Inv, Expendable, ReduceOrder, Survivors, Reduced, SameContents, Sorted, Share;
      lim := Share(claInc, |learnts|);
      var ls := SortLearnts();
      s := ls;
      SortedReduced(s, lim);
      learnts := SweepExpendable(ls, lim);
      ListedIsInv();
    }

    /** Reduces the set of learnt clauses to those that the references in ls denoted, whether
        garbage is collected or not; the search state is untouched. */
    method ReduceDB() returns (ghost s: seq<CRef>, lim: real, ghost ls: seq<CRef>)
      requires Inv()
      modifies ca, watches, `vardata, `learnts, `clauses
      ensures Inv() && SameButReasons(old(T()), T())
      ensures multiset(s) == multiset(old(learnts)) && Sorted(ReduceOrder(old(ca.mem), old(ca.act)), s)
      ensures lim == Share(claInc, |old(learnts)|) && Reduced(old(ca.mem), old(ca.act), old(T()), s, lim, ls)
      ensures Texts(ca.mem, learnts) == Texts(old(ca.mem), ls) && Texts(ca.mem, clauses) == old(Texts(ca.mem, clauses))
      ensures garbageFrac >= 0.0 ==> !Wasteful()
    {
      hide Wasteful, Inv, Reduced, Sorted, ReduceOrder, Texts, SameContents, Share;
      ghost var mem := ca.mem;
      s, lim := ReduceLearnts();
      ls := learnts;
      TextsSame(mem, ca.mem, learnts);
      TextsSame(mem, ca.mem, clauses);
      CheckGarbage();
    }

    // ---------- simplification ----------

    /** What every public operation keeps: at level 0 everything is propagated and the database is
        equivalent to the clauses added; or the solver has found those clauses contradictory. */
    ghost predicate Valid()
      reads `ok, `assigns, `vardata, `trail, `trailLim, `pos, `qhead, `activity, `varInc, `decision, `seen, `polarity,
            `varDecay, `clauseDecay, `added, `claInc, `clauses, `learnts, ca, watches, order
    {
      && Frame() && |trailLim| == 0
      && (if ok then Inv() && qhead == |trail| else Unsatisfiable(added))
    }

    lemma ConflictRefutes(confl: CRef)
      requires CoreInv() && confl != CREF_UNDEF && Propagated(confl) && |trailLim| == 0
      ensures Unsatisfiable(added)
    {
      RootRefuted(added, ca.mem, T(), ca.mem[confl].lits);
    }

    lemma CoreFrame()
      requires CoreInv()
      ensures Frame() && (Propagated(CREF_UNDEF) ==> Inv())
    {
    }

    lemma ListedIsInv()
      ensures ListedInv(learnts, clauses, true) <==> Inv()
      ensures ListedInv(clauses, learnts, false) <==> Inv()
      ensures Inv() ==> CoreInv() && Frame()
    {
    }

    // The problem clauses that stay when satisfied ones go, in a state with this memory and trail.
    ghost function ClausesLeft(mem: Memory, t: TrailState): seq<CRef>
      reads `clauses, `removeSatisfiedToo
    {
      if removeSatisfiedToo then Unsatisfied(mem, t, clauses, |clauses|) else clauses
    }

    /** Removes the satisfied learnt clauses, and the satisfied problem clauses if asked to. */
    method SweepSatisfied()
      requires Inv() && |trailLim| == 0
      modifies ca`mem, ca`wasted, watches`dirty, watches`dirties, `vardata, `learnts, `clauses
      ensures Inv() && SameButReasons(old(T()), T()) && SameContents(old(ca.mem), ca.mem)
      ensures learnts == Unsatisfied(old(ca.mem), old(T()), old(learnts), |old(learnts)|)
      ensures clauses == old(ClausesLeft(ca.mem, T()))
    {
      hide Inv, CoreInv, Frame, ListedInv, SameButReasons, SameContents, Unsatisfied;
      ListedIsInv();
      ghost var mem0, t0 := ca.mem, T();
      learnts := RemoveSatisfied(learnts, true, clauses);
      ListedIsInv();
      if removeSatisfiedToo {
        ghost var mem, t := ca.mem, T();
        SameEnds(t0, t);
        UnsatisfiedSame(mem0, t0, mem, t, clauses, |clauses|);
        clauses := RemoveSatisfied(clauses, false, learnts);
        SameTrans(t0, t, T());
        SameContentsTrans(mem0, mem, ca.mem);
        ListedIsInv();
      }
    }

    /** Removes satisfied clauses and what has become garbage. */
    method SimplifyDb()
      requires Inv() && |trailLim| == 0
      modifies ca, watches, order, `vardata, `learnts, `clauses
      ensures Inv() && SameButReasons(old(T()), T())
      ensures Texts(ca.mem, learnts) ==
              Texts(old(ca.mem), Unsatisfied(old(ca.mem), old(T()), old(learnts), |old(learnts)|))
      ensures Texts(ca.mem, clauses) == Texts(old(ca.mem), old(ClausesLeft(ca.mem, T())))
      ensures NoneSatisfied(T(), Texts(ca.mem, learnts))
      ensures removeSatisfiedToo ==> NoneSatisfied(T(), Texts(ca.mem, clauses))
      ensures garbageFrac >= 0.0 ==> !Wasteful()
      ensures forall v: nat :: order.InHeap(v) <==> v < |assigns| && decision[v] && assigns[v] == Undef
    {
      hide Wasteful, Inv, StateInv, OrderBut, ScratchInv, SameButReasons, ClauseAllocator.Valid, OccLists.Valid, Texts,
           Unsatisfied, NoneSatisfied, SameContents;
      ghost var mem0, t0, ls, cs := ca.mem, T(), learnts, clauses;
      SweepSatisfied();
      ghost var t := T();
      TextsSame(mem0, ca.mem, learnts);
      TextsSame(mem0, ca.mem, clauses);
      CheckGarbage();
      SameTrans(t0, t, T());
      SameEnds(t0, T());
      UnsatisfiedTexts(mem0, t0, T(), ls);
      UnsatisfiedTexts(mem0, t0, T(), cs);
      InvState();
      RebuildOrderHeap();
      StateGivesInv();
    }

    // Propagates at level 0; a conflict there settles the matter.
    method PropagateRoot()
      requires Inv() && ok && |trailLim| == 0
      modifies `ok, `assigns, `vardata, `trail, `pos, `qhead, ca`mem, watches
      ensures Valid() && |assigns| == |old(assigns)| && Derived(T(), old(T()))
      ensures old(qhead) == |old(trail)| ==> ok && T() == old(T())
    {
      hide Inv, CoreInv, Frame, Unsatisfiable, Derived, Propagated;
      ghost var t := T();
      var confl := PropagateInv();
      DerivedLens(t, T());
      CoreFrame();
      if confl != CREF_UNDEF {
        ConflictRefutes(confl);
        ok := false;
      }
    }

    /** Propagates and simplifies at level 0; false when the clauses are contradictory, which is
        known before, as everything has been propagated already. */
    method Simplify() returns (r: bool)
      requires Valid()
      modifies `ok, `assigns, `vardata, `trail, `pos, `qhead, `learnts, `clauses, ca, watches, order
      ensures Valid() && r == ok == old(ok) && SameButReasons(old(T()), T())
    {
      hide Inv, CoreInv, Frame, Unsatisfiable, SameButReasons;
      SameRefl(T());
      if ok {
        PropagateRoot();
      }
      if !ok {
        return false;
      }
      r := true;
      var upToDate: bool := *;   // nothing new at level 0, or too little propagated since
      if !upToDate {
        SimplifyDb();
        ListedIsInv();
        SameEnds(old(T()), T());
      }
    }

    // ---------- adding variables and clauses ----------

    method SetDecisionVar(v: Var, b: bool)
      requires Valid() && v < |assigns|
      modifies `decision, order
      ensures Valid() && decision == old(decision)[v := b]
    {
      hide Inv, StateInv, BaseInv, WatchOK, ScratchInv, HeapInv, Unsatisfiable;
      if ok { InvState(); }
      decision := decision[v := b];
      InsertVarOrder(v);
      assert b ==> order.InHeap(v);
      if ok { StateGivesInv(); }
    }

    lemma GrowOrder(a: real)
      requires HeapInv()
      ensures Ordered(order.heap, activity + [a]) && forall v: nat :: order.InHeap(v) ==> v < |activity|
    {
      hide Inverse;
      forall i {:trigger Parent(i)} | 0 < i < |order.heap|
        ensures Act(activity + [a], order.heap[Parent(i)]) >= Act(activity + [a], order.heap[i])
      {
        HeapEntry(i);
        HeapEntry(Parent(i));
      }
    }

    // Appends an entry for the new variable to every list.
    method PushLists(sign: bool)
      requires OrderInv() && ScratchInv() && |vardata| == |pos| == |assigns|
      modifies `assigns, `vardata, `pos, `activity, `seen, `polarity, `decision
      ensures OrderInv() && ScratchInv() && T() == Grown(old(T())) && decision == old(decision) + [false]
      ensures |assigns| == |old(assigns)| + 1
    {
      hide HeapInv;
      var a: real := *;   // zero, or a small random number
      HeapParts();
      GrowOrder(a);
      assigns, vardata, pos := assigns + [Undef], vardata + [VarData(CREF_UNDEF, 0)], pos + [0];
      activity, seen, polarity, decision := activity + [a], seen + [false], polarity + [sign], decision + [false];
      StillHeap();
    }

    // Two empty watch lists for the new variable.
    method InitWatches()
      requires watches.Valid() && Lit(|assigns|, false) !in watches.occs && Lit(|assigns|, true) !in watches.occs
      modifies watches`occs
      ensures watches.Valid() && watches.occs == GrownOccs(old(watches.occs), |assigns|)
    {
      watches.Init(Lit(|assigns|, false));
      watches.Init(Lit(|assigns|, true));
    }

    // Appends a variable that is not a decision variable yet.
    method PushVar(sign: bool)
      requires Valid()
      modifies `assigns, `vardata, `pos, `activity, `seen, `polarity, `decision, watches`occs
      ensures Valid() && T() == Grown(old(T())) && decision == old(decision) + [false]
    {
      hide T, StateOK, WatchOK, Frame, Valid, OrderBut, ScratchInv, Unsatisfiable, TrailOK, ReasonsOK, DbOK, OccKeys,
           Grown, GrownOccs, ClauseAllocator.Valid, OccLists.Valid;
      ValidFacts();
      GrowFacts();
      GrowInv();
      InitWatches();
      PushLists(sign);
      GrownValid();
    }

    lemma GrowInv()
      requires Valid()
      ensures claInc > 0.0 || !ok
      ensures ok ==> qhead == |trail| && StateOK(added, ca.mem, GrownOccs(watches.occs, |assigns|), watches.dirty,
          Grown(T()), clauses, learnts, ca.sz, ca.wasted, qhead)
    {
      hide Inv, StateOK;
      if ok {
        InvState();
        GrownState(added, ca.mem, watches.occs, watches.dirty, T(), clauses, learnts, ca.sz, ca.wasted, qhead);
      }
    }

    lemma GrownValid()
      requires ca.Valid() && ca.fwd == map[] && watches.Valid() && OccKeys(watches.occs, |assigns|)
      requires TrailOK(T()) && ReasonsOK(ca.mem, T()) && DbOK(ca.mem, |assigns|) && T().LevelStart() <= qhead <= |trail|
      requires WatchOK(ca.mem, watches.occs, watches.dirty) && OrderInv() && ScratchInv() && |trailLim| == 0
      requires if ok then StateInv() && claInc > 0.0 && qhead == |trail| else Unsatisfiable(added)
      ensures Valid()
    {
      hide Inv, Frame, StateOK, WatchOK, TrailOK, ReasonsOK, DbOK, OccKeys, OrderBut, ScratchInv,
           ClauseAllocator.Valid, OccLists.Valid;
      FrameFromParts();
      if ok { StateGivesInv(); }
    }

    lemma FrameFromParts()
      requires ca.Valid() && ca.fwd == map[] && watches.Valid() && OccKeys(watches.occs, |assigns|)
      requires TrailOK(T()) && ReasonsOK(ca.mem, T()) && DbOK(ca.mem, |assigns|) && T().LevelStart() <= qhead <= |trail|
      requires WatchOK(ca.mem, watches.occs, watches.dirty) && OrderInv() && ScratchInv()
      ensures Frame()
    {
    }

    lemma HeapParts()
      requires HeapInv()
      ensures order.Valid() && varInc > 0.0
    {
    }

    lemma StillHeap()
      requires order.Valid() && Ordered(order.heap, activity) && varInc > 0.0 && forall v: nat :: order.InHeap(v) ==>
          v < |activity|
      ensures HeapInv()
    {
    }

    /** A new variable, unassigned and in no clause. */
    method NewVar(sign: bool, dvar: bool) returns (v: Var)
      requires Valid()
      modifies `assigns, `vardata, `pos, `activity, `seen, `polarity, `decision, watches`occs, order
      ensures Valid() && v == |old(assigns)| && T() == Grown(old(T())) && decision == old(decision) + [dvar]
    {
      hide Inv, Frame, Unsatisfiable;
      v := |assigns|;
      LensOf();
      PushVar(sign);
      SetDecisionVar(v, dvar);
    }

    lemma LensOf()
      requires Frame()
      ensures |decision| == |assigns|
    {
    }

    lemma GrowFacts()
      requires Frame()
      ensures ca.Valid() && ca.fwd == map[] && watches.Valid() && OrderInv() && ScratchInv()
          && |vardata| == |pos| == |assigns|
      ensures T().LevelStart() <= qhead <= |trail| && Grown(T()).LevelStart() == T().LevelStart()
      ensures Lit(|assigns|, false) !in watches.occs && Lit(|assigns|, true) !in watches.occs
      ensures TrailOK(Grown(T())) && ReasonsOK(ca.mem, Grown(T())) && DbOK(ca.mem, |assigns| + 1)
      ensures OccKeys(GrownOccs(watches.occs, |assigns|), |assigns| + 1)
      ensures WatchOK(ca.mem, GrownOccs(watches.occs, |assigns|), watches.dirty)
    {
      GrownTrail(ca.mem, T());
      GrownDb(ca.mem, watches.occs, watches.dirty, |assigns|);
    }

    // Sorts the literals and keeps the unassigned ones, once each.
    method FilterLits(ps: seq<Lit>) returns (superfluous: bool, out: seq<Lit>)
      requires InRange(ps, |assigns|)
      ensures if superfluous then Superfluous(T(), ps) else Filtered(T(), ps, out) && InRange(out, |assigns|)
    {
      hide Filtering, LitOrder, Superfluous;
      var a := SortLits(ps);
      ghost var s := a[..];
      SortedRange(ps, s, |assigns|);
      StartFilter(T(), s);
      var i: nat, j: nat := 0, 0;
      while i < a.Length
        invariant j <= i <= a.Length == |s| && Filtering(T(), s, i, a[..j])
        invariant forall k :: i <= k < |s| ==> a[k] == s[k]
        invariant forall k :: 0 <= k < j ==> a[k].v < |assigns|
      {
        var q := a[i];
        assert j > 0 ==> a[..j] != [] && a[..j][j - 1] == a[j - 1];
        if Value(q) == True {
          FilterTrue(T(), ps, s, i);
          return true, [];
        } else if j > 0 && q == Neg(a[j - 1]) {
          FilterPair(T(), ps, s, i, a[..j]);
          return true, [];
        } else if Value(q) != False && (j == 0 || q != a[j - 1]) {
          FilterKeep(T(), s, i, a[..j]);
          ghost var kept := a[..j];
          a[j] := q;
          assert a[..j + 1] == kept + [q];
          j := j + 1;
        } else {
          FilterSkip(T(), s, i, a[..j]);
        }
        i := i + 1;
      }
      FilterEnd(T(), ps, s, a[..j]);
      superfluous, out := false, a[..j];
    }

    // The last remaining literal is enqueued at level 0.
    method EnqueueUnit(ps: seq<Lit>, p: Lit)
      requires Valid() && ok && Filtered(T(), ps, [p]) && p.v < |assigns|
      modifies `added, `assigns, `vardata, `trail, `pos
      ensures |old(vardata)| == |old(pos)| == |old(assigns)|
      ensures Inv() && added == old(added) + {ps} && T() == Enqueued(old(T()), p, CREF_UNDEF)
    {
      hide Inv, Frame, StateOK, Filtered, HeapInv, Unsatisfiable, ClauseAllocator.Valid, OccLists.Valid;
      InvState();
      UnitState(added, ca.mem, watches.occs, watches.dirty, T(), clauses, learnts, ca.sz, ca.wasted, qhead, ps, p);
      added := added + {ps};
      UncheckedEnqueue(p, CREF_UNDEF);
      StateGivesInv();
    }

    // The last remaining literal becomes a fact.
    method AddUnit(ps: seq<Lit>, p: Lit)
      requires Valid() && ok && Filtered(T(), ps, [p]) && p.v < |assigns|
      modifies `ok, `added, `assigns, `vardata, `trail, `pos, `qhead, ca`mem, watches
      ensures Valid() && added == old(added) + {ps} && |assigns| == |old(assigns)|
      ensures T().Extends(old(T())) && T().Val(p) == True
    {
      hide Inv, Frame, Filtered, Unsatisfiable, Derived, TrailOK;
      ghost var t := T();
      UnitFacts(ps, p);
      EnqueueUnit(ps, p);
      PropagateRoot();
      FactStays(t, p, T());
    }

    lemma UnitFacts(ps: seq<Lit>, p: Lit)
      requires Inv() && Filtered(T(), ps, [p])
      ensures TrailOK(T()) && T().Val(p) == Undef
    {
      assert [p][0] == p;
    }

    // The remaining literals become a problem clause.
    method AddProblemClause(ps: seq<Lit>, c: seq<Lit>)
      requires Valid() && ok && Filtered(T(), ps, c) && InRange(c, |assigns|) && |c| >= 2
      modifies `added, `clauses, ca, watches`occs
      ensures Valid() && added == old(added) + {ps} && T() == old(T())
    {
      hide Inv, Frame, StateOK, Filtered, OrderBut, ScratchInv, Unsatisfiable, OccLists.Valid, OccKeys;
      InvState();
      NewRef();
      ClauseState(added, ca.mem, watches.occs, watches.dirty, T(), clauses, learnts, ca.sz, ca.wasted, qhead, ps, c);
      FilteredOK(T(), ps, c, qhead);
      var cr := ca.Alloc(c, false);
      clauses := clauses + [cr];
      AttachClause(cr);
      added := added + {ps};
      StateGivesInv();
      InvValid();
    }

    lemma NewRef()
      requires Inv()
      ensures ca.sz !in ca.mem && OccKeys(watches.occs, |assigns|)
    {
    }

    /** Adds a clause; false when the clauses added so far are contradictory.  What was assigned
        stays; a clause of one literal assigns it, one with two open literals assigns nothing. */
    method AddClause(ps: seq<Lit>) returns (r: bool)
      requires Valid() && InRange(ps, |assigns|)
      modifies `ok, `added, `assigns, `vardata, `trail, `pos, `qhead, `clauses, ca, watches
      ensures Valid() && added == old(added) + {ps} && r == ok && |assigns| == |old(assigns)| && T().Extends(old(T()))
      ensures r && |ps| == 1 ==> T().Val(ps[0]) == True
      ensures old(ok) && TwoOpen(old(T()), ps) ==> r && T() == old(T())
    {
      hide Inv, Frame, StateOK, Filtered, Superfluous, OrderBut, ScratchInv, Unsatisfiable, ClauseAllocator.Valid,
           OccLists.Valid, OccKeys;
      if !ok {
        UnsatisfiableMore(added, ps);
        added := added + {ps};
        return false;
      }
      var superfluous, c := FilterLits(ps);
      if superfluous {
        SuperfluousUnit(T(), ps);
        InvState();
        SuperfluousState(added, ca.mem, watches.occs, watches.dirty, T(), clauses, learnts, ca.sz, ca.wasted, qhead,
            ps);
        added := added + {ps};
        StateGivesInv();
        InvValid();
      } else if |c| == 0 {
        FilteredUnit(T(), ps, c);
        AddEmpty(ps);
        added := added + {ps};
        ok := false;
      } else if |c| == 1 {
        assert c == [c[0]];
        FilteredUnit(T(), ps, c);
        AddUnit(ps, c[0]);
      } else {
        FilteredUnit(T(), ps, c);
        AddProblemClause(ps, c);
      }
      r := ok;
    }

    lemma AddEmpty(ps: seq<Lit>)
      requires Inv() && |trailLim| == 0 && Filtered(T(), ps, [])
      ensures Unsatisfiable(added + {ps})
    {
      EmptyRefuted(added, ca.mem, T(), ps);
    }

    /** Between calls, what is assigned follows from the clauses added. */
    lemma AssignedImplied(v: Var)
      requires Valid() && ok && T().Assigned(v)
      ensures Implied(added, [T().TrueLit(v)])
    {
      hide StateOK, Implied;
      InvState();
      AtRoot(added, ca.mem, T(), clauses, learnts, ca.sz, ca.wasted, v);
    }

    // ---------- branching ----------

    /** The next variable to branch on: a most active one, unless chosen at random; there is none
        if and only if every decision variable is assigned. */
    method PickBranchLit() returns (found: bool, p: Lit)
      requires OrderInv() && |polarity| == |assigns|
      modifies order
      ensures found <==> !NothingOpen(decision, assigns)
      ensures if found then p.v < |assigns| && assigns[p.v] == Undef && decision[p.v] && OrderBut(p.v) else OrderInv()
      ensures found ==> MostActive(p.v, assigns)
      ensures found && !rndPol ==> p.neg == polarity[p.v]
    {
      hide Inverse, Ordered;
      var next: nat := 0;
      found, p := false, Lit(0, false);
      var draw: real := *;
      draw := if draw < 0.0 then 0.0 else draw;
      if draw < randomVarFreq && |order.heap| > 0 {
        var i :| 0 <= i < |order.heap|;
        HeapEntry(i);
        next, found := order.heap[i], true;
      }
      while !found || assigns[next] != Undef || !decision[next]
        invariant found ==> next < |assigns|
        invariant OrderBut(if found then next else -1)
        invariant found && randomVarFreq <= 0.0 ==> forall v: nat :: order.InHeap(v) ==>
            Act(activity, next) >= Act(activity, v)
        decreases |order.heap|
      {
        if |order.heap| == 0 {
          HeapEmpty();
          return false, p;
        }
        next := order.RemoveMin(activity);
        found := true;
      }
      var flip: bool := *;
      p := Lit(next, if rndPol then flip else polarity[next]);
    }

    lemma HeapEntry(i: nat)
      requires HeapInv() && i < |order.heap|
      ensures order.heap[i] < |activity|
    {
      assert order.InHeap(order.heap[i]);
    }

    lemma HeapEmpty()
      requires HeapInv() && order.heap == []
      ensures forall v: nat :: !order.InHeap(v)
    {
    }

    method NewDecisionLevel()
      requires Inv() && qhead == |trail|
      modifies `trailLim
      ensures Inv() && T() == Opened(old(T()))
    {
      hide Inv, StateOK, OrderBut, ScratchInv;
      InvState();
      OpenState(added, ca.mem, watches.occs, watches.dirty, T(), clauses, learnts, ca.sz, ca.wasted);
      trailLim := trailLim + [|trail|];
      StateGivesInv();
    }

    // The invariant while variable x has been taken from the heap.
    ghost predicate InvBut(x: int)
      reads `assigns, `vardata, `trail, `trailLim, `pos, `qhead, `activity, `varInc, `decision, `seen, `polarity,
            `varDecay, `clauseDecay, `added, `claInc, `clauses, `learnts, ca, watches, order
    {
      && StateInv() && ca.Valid() && ca.fwd == map[] && watches.Valid() && claInc > 0.0 && OrderBut(x) && ScratchInv()
      && T().LevelStart() <= qhead <= |trail|
    }

    /** Decides p on a new level. */
    method Decide(p: Lit)
      requires InvBut(p.v) && qhead == |trail| && p.v < |assigns| && T().Val(p) == Undef
      modifies `assigns, `vardata, `trail, `trailLim, `pos
      ensures |old(vardata)| == |old(pos)| == |old(assigns)|
      ensures Inv() && T() == Enqueued(Opened(old(T())), p, CREF_UNDEF)
    {
      hide Inv, StateOK, HeapInv, ClauseAllocator.Valid, OccLists.Valid;
      OpenState(added, ca.mem, watches.occs, watches.dirty, T(), clauses, learnts, ca.sz, ca.wasted);
      trailLim := trailLim + [|trail|];
      DecideState(added, ca.mem, watches.occs, watches.dirty, T(), clauses, learnts, ca.sz, ca.wasted, p);
      UncheckedEnqueue(p, CREF_UNDEF);
      StateGivesInv();
    }

    // ---------- search ----------

    // A search under the assumptions is in progress.
    ghost predicate Searching()
      reads `assigns, `vardata, `trail, `trailLim, `pos, `qhead, `activity, `varInc, `decision, `seen, `polarity,
            `varDecay, `clauseDecay, `added, `claInc, `clauses, `learnts, `assumptions, ca, watches, order
    {
      Inv() && InRange(assumptions, |assigns|) && SearchOK(T(), assumptions)
    }

    ghost function Room(): nat
      reads `assigns, `vardata, `trail, `trailLim, `pos, `assumptions
    {
      Measure(T(), |assumptions|)
    }

    lemma InvTrail()
      requires CoreInv()
      ensures TrailOK(T()) && |vardata| == |assigns| == |pos|
    {
    }

    lemma InvCore()
      requires Inv()
      ensures CoreInv()
    {
    }

    // A round of propagation within the search.
    method PropagateSearch() returns (confl: CRef)
      requires Searching()
      modifies `assigns, `vardata, `trail, `pos, `qhead, ca`mem, watches
      ensures CoreInv() && Propagated(confl) && qhead == |trail|
      ensures confl == CREF_UNDEF ==> Inv()
      ensures old(qhead) == |old(trail)| ==> confl == CREF_UNDEF && T() == old(T())
      ensures InRange(assumptions, |assigns|) && SearchOK(T(), assumptions) && Room() <= old(Room())
      ensures |assigns| == |old(assigns)|
    {
      hide Inv, CoreInv, SearchOK, Measure, TrailOK, Derived;
      ghost var t := T();
      InvCore();
      InvTrail();
      confl := PropagateInv();
      InvTrail();
      DerivedLens(t, T());
      DerivedSearch(t, T(), assumptions);
      CoreFrame();
    }

    // A conflict within the search.
    method ConflictSearch(confl: CRef)
      requires CoreInv() && Propagated(confl) && confl != CREF_UNDEF && |trailLim| > 0
      requires InRange(assumptions, |assigns|) && SearchOK(T(), assumptions)
      modifies `assigns, `vardata, `trail, `trailLim, `pos, `qhead, `polarity, `learnts, `seen, `activity, `varInc,
               `claInc, `analyzeStack, `analyzeToclear, ca, watches`occs, order
      ensures Searching() && Room() < old(Room()) && |assigns| == |old(assigns)| && |trailLim| < |old(trailLim)|
    {
      hide Inv, CoreInv, SearchOK, Measure, TrailOK, Learned, Asserting;
      ghost var t := T();
      InvTrail();
      ghost var level, c, cr, at := ResolveConflict(confl);
      BackjumpSearch(t, level, c[0], cr, assumptions);
    }

    // A level for the next assumption, which holds already.
    method DummyLevel()
      requires Searching() && qhead == |trail| && |trailLim| < |assumptions| && T().Val(assumptions[|trailLim|]) == True
      modifies `trailLim
      ensures Searching() && qhead == |trail| && |trailLim| == |old(trailLim)| + 1 && Room() < old(Room())
    {
      hide Inv, SearchOK, Measure, TrailOK;
      InvCore();
      InvTrail();
      DummySearch(T(), assumptions);
      NewDecisionLevel();
    }

    // The next assumption is false: explains why.
    method FailAssumption(p: Lit)
      requires Searching() && |trailLim| < |assumptions| && p in assumptions && T().Val(p) == False
      modifies `seen, `conflict
      ensures Inv() && conflict != [] && Implied(added, conflict) && FromAssumptions(conflict, assumptions)
    {
      hide Inv, StateOK, OrderBut, TrailOK, ReasonsOK, DbOK, PropOK, DatabaseOK, WatchOK, Sound, Implied,
           FromAssumptions;
      InvState();
      FailFacts(p);
      conflict := AnalyzeFinal(Neg(p));
      StateGivesInv();
    }

    lemma FailFacts(p: Lit)
      requires Searching() && T().Val(p) == False
      ensures TrailBase() && T().Val(Neg(p)) == True && AssumptionsOK(T(), assumptions) && Neg(Neg(p)) == p
      ensures forall v :: 0 <= v < |seen| ==> !seen[v]
    {
    }

    /** Takes the levels of the assumptions that hold already, up to one that is undecided or
        false. */
    method NextAssumption() returns (failed: bool, found: bool, p: Lit)
      requires Searching() && qhead == |trail|
      modifies `trailLim, `seen, `conflict
      ensures if failed then Inv() && conflict != [] && Implied(added, conflict)
          && FromAssumptions(conflict, assumptions)
              else Searching() && conflict == old(conflict) && Room() <= old(Room())
      ensures qhead == |trail| && |trailLim| >= |old(trailLim)|
      ensures !failed && found ==>
        |trailLim| < |assumptions| && p == assumptions[|trailLim|] && p.v < |assigns| && T().Val(p) == Undef
      ensures !failed && !found ==> |trailLim| >= |assumptions|
      ensures assumptions == [] ==> !failed && !found && T() == old(T())
    {
      hide Inv, SearchOK, Measure, Implied, FromAssumptions;
      failed, found, p := false, false, Lit(0, false);
      while |trailLim| < |assumptions|
        invariant Searching() && qhead == |trail| && conflict == old(conflict) && Room() <= old(Room())
        invariant |trailLim| >= |old(trailLim)|
        invariant assumptions == [] ==> T() == old(T())
        decreases |assumptions| - |trailLim|
      {
        p := assumptions[|trailLim|];
        if Value(p) == True {
          DummyLevel();
        } else if Value(p) == False {
          FailAssumption(p);
          failed := true;
          return;
        } else {
          found := true;
          return;
        }
      }
    }

    // Every decision variable is assigned, and so is every assumption, to true.
    ghost predicate Finished()
      reads `assigns, `vardata, `trail, `trailLim, `pos, `decision, `assumptions
    {
      && NothingOpen(decision, assigns)
      && (forall p :: p in assumptions ==> T().Val(p) == True)
    }

    lemma AssumptionsTrue()
      requires SearchOK(T(), assumptions) && |trailLim| >= |assumptions|
      ensures forall p :: p in assumptions ==> T().Val(p) == True
    {
    }

    lemma InvIsInvBut(x: int)
      requires Inv()
      ensures InvBut(x) && OrderInv() && |polarity| == |assigns|
    {
    }

    // Decides the next assumption or branches; finished if and only if there is nothing to decide.
    method Branch(isAssumption: bool, p0: Lit) returns (finished: bool, ghost decided: Lit)
      requires Searching() && qhead == |trail|
      requires if isAssumption then |trailLim| < |assumptions| && p0 == assumptions[|trailLim|] && p0.v < |assigns|
          && T().Val(p0) == Undef
               else |trailLim| >= |assumptions|
      modifies order, `assigns, `vardata, `trail, `trailLim, `pos
      ensures finished <==> !isAssumption && old(NothingOpen(decision, assigns))
      ensures if finished then Inv() && Finished() && qhead == |trail| else Searching() && Room() < old(Room())
      ensures |assigns| == |old(assigns)|
      ensures !finished ==> decided.v < |old(assigns)| == |old(vardata)| == |old(pos)|
      ensures !finished ==> T() == Enqueued(Opened(old(T())), decided, CREF_UNDEF)
      ensures !finished ==>
        if isAssumption then decided == p0
        else
          && decided.v < |decision| && decision[decided.v] && old(assigns)[decided.v] == Undef
          && MostActive(decided.v, old(assigns)) && (!rndPol ==> decided.neg == polarity[decided.v])
    {
      hide Inv, SearchOK, Measure, StateInv, HeapInv, TrailOK;
      InvCore();
      InvTrail();
      ghost var t := T();
      finished := false;
      var found, p := isAssumption, p0;
      InvIsInvBut(p.v);
      decided := p;
      if !found {
        found, p := PickBranchLit();
        if !found {
          finished := true;
          AssumptionsTrue();
          ButIsInv();
          return;
        }
      }
      DecideSearch(t, p, assumptions);
      decided := p;
      Decide(p);
    }

    // Unless choices are random, x is a most active one of the decision variables that were unassigned.
    ghost predicate MostActive(x: Var, assigns0: seq<LBool>)
      reads `randomVarFreq, `decision, `activity
    {
      && x < |activity| && |decision| == |assigns0| == |activity|
      && (randomVarFreq <= 0.0 ==>
        forall v :: 0 <= v < |assigns0| && decision[v] && assigns0[v] == Undef ==> activity[x] >= activity[v])
    }

    lemma ButIsInv()
      requires InvBut(-1)
      ensures Inv() && |decision| == |assigns|
    {
      StateGivesInv();
    }

    /** Housekeeping between conflicts: simplification at level 0, reduction of the learnt clauses.
        The assignment stays, and simplification finds no contradiction. */
    method Housekeeping()
      requires Searching() && ok && qhead == |trail|
      modifies `ok, `assigns, `vardata, `trail, `pos, `qhead, `learnts, `clauses, ca, watches, order
      ensures Searching() && ok && qhead == |trail| && Room() == old(Room()) && SameButReasons(old(T()), T())
    {
      hide Inv, SearchOK, Measure, TrailOK, Frame, Unsatisfiable, CoreInv, SameButReasons;
      InvCore();
      SameRefl(T());
      if |trailLim| == 0 {
        CoreFrame();
        var fine := Simplify();
        assert fine;   // otherwise the answer would be False
      }
      var full: bool := *;   // more learnt clauses than wanted
      if full {
        ghost var u := T();
        SameEnds(old(T()), u);
        ghost var s, ls;
        var lim;
        s, lim, ls := ReduceDB();
        SameTrans(old(T()), u, T());
      }
      SameEnds(old(T()), T());
      SameSearch(old(T()), T(), assumptions);
    }

    // What an answer means, before the search is undone.
    ghost predicate Answered(status: LBool)
      reads `ok, `assigns, `vardata, `trail, `trailLim, `pos, `qhead, `activity, `varInc, `decision, `seen, `polarity,
            `varDecay, `clauseDecay, `added, `claInc, `clauses, `learnts, `assumptions, `conflict, ca, watches, order
    {
      match status
      case Undef => Inv() && ok && |trailLim| == 0 && qhead == |trail| && conflict == []
      case True => Inv() && ok && Finished() && qhead == |trail| && conflict == []
      case False =>
        if conflict == [] then Frame() && |trailLim| == 0 && Unsatisfiable(added)
        else Inv() && ok && qhead == |trail| && Implied(added, conflict) && FromAssumptions(conflict, assumptions)
    }

    lemma LimFacts(level: nat)
      requires Inv() && level < |trailLim|
      ensures trailLim[level] <= |trail| && PropOK(ca.mem, T(), qhead)
    {
    }

    // Back to level 0.
    method Restart()
      requires Inv() && qhead == |trail|
      modifies `assigns, `polarity, `trail, `trailLim, `qhead, order
      ensures Inv() && |trailLim| == 0 && qhead == |trail| && |assigns| == |old(assigns)|
      ensures |old(trailLim)| == 0 ==> assigns == old(assigns)
    {
      hide Inv, CoreInv, TrailOK, PropOK, OrderBut;
      InvCore();
      InvTrail();
      if |trailLim| > 0 { LimFacts(0); }
      assert PropOK(ca.mem, T(), qhead) by { InvParts(); }
      CancelInv(0, qhead);
    }

    // The most conflicts a single search can take.
    ghost function ConflictBound(): nat
      reads `assigns, `assumptions
    {
      Power(|assigns| + 2, |assigns| + |assumptions| + 1)
    }

    lemma UndefAnswered()
      requires Valid() && ok && conflict == []
      ensures Answered(Undef)
    {
    }

    // A conflict at level 0.
    lemma FalseAnswered(confl: CRef)
      requires CoreInv() && confl != CREF_UNDEF && Propagated(confl) && |trailLim| == 0 && conflict == []
      ensures Answered(False)
    {
      CoreFrame();
      ConflictRefutes(confl);
    }

    lemma ReadyToSearch()
      requires Valid() && ok
      ensures CoreInv() && Inv() && |trailLim| == 0 && qhead == |trail|
    {
    }

    /** Searches until there is an answer, the bound on conflicts is reached or the budget is used
        up; terminates with no more conflicts than there is room for. */
    method Search(nofConflicts: int) returns (status: LBool, stopped: bool)
      requires Valid() && ok && InRange(assumptions, |assigns|) && conflict == []
      modifies `ok, `assigns, `vardata, `trail, `trailLim, `pos, `qhead, `polarity, `clauses, `learnts, `seen,
               `activity, `varInc, `claInc, `analyzeStack, `analyzeToclear, `conflict, ca, watches, order
      ensures Answered(status) && |assigns| == |old(assigns)|
      ensures status == Undef ==> stopped || 0 <= nofConflicts < ConflictBound()
      ensures stopped ==> limited
      ensures Quiet(old(assumptions), old(decision), old(assigns)) ==>
          status != False && (status == Undef ==> assigns == old(assigns))
    {
      hide Inv, CoreInv, SearchOK, Measure, TrailOK, Valid, Answered, Power, Quiet;
      ReadyToSearch();
      InvTrail();
      StartSearch(T(), assumptions);
      MeasureBound(T(), |assumptions|);
      ghost var room0, n, quiet := Room(), |assigns|, Quiet(assumptions, decision, assigns);
      var done, conflictC: nat := false, 0;
      stopped, status := false, Undef;
      while !done
        invariant if done then Answered(status) else Searching() && ok && conflict == [] && conflictC + Room() <= room0
        invariant |assigns| == n && (done && status == Undef ==> stopped || 0 <= nofConflicts <= room0)
        invariant stopped ==> limited
        invariant quiet && done ==> status != False && (status == Undef ==> assigns == old(assigns))
        invariant quiet && !done ==> assigns == old(assigns) && qhead == |trail| && |trailLim| == 0
        decreases !done, Room()
      {
        status, done, stopped, conflictC := SearchRound(nofConflicts, conflictC);
      }
    }

    // One round of the search: propagation, then a conflict, the end of the budget or a step.
    method SearchRound(nofConflicts: int, count: nat) returns (status: LBool, done: bool, stopped: bool, conflictC: nat)
      requires Searching() && ok && conflict == []
      modifies `ok, `assigns, `vardata, `trail, `trailLim, `pos, `qhead, `polarity, `clauses, `learnts, `seen,
               `activity, `varInc, `claInc, `analyzeStack, `analyzeToclear, `conflict, ca, watches, order
      ensures |assigns| == |old(assigns)| && (stopped ==> limited)
      ensures if done then Answered(status) && (status == Undef ==> stopped || 0 <= nofConflicts <= count)
              else
                && Searching() && ok && conflict == []
                && conflictC + Room() <= count + old(Room()) && Room() < old(Room())
                && (if |trailLim| < |old(trailLim)| then conflictC == count + 1
                    else |trailLim| > |old(trailLim)| && conflictC == count && !(0 <= nofConflicts <= count))
      ensures Quiet(old(assumptions), old(decision), old(assigns)) && old(|trailLim| == 0 && qhead == |trail|) ==>
                done && status != False && (status == Undef ==> assigns == old(assigns))
    {
      hide Inv, CoreInv, SearchOK, Measure, TrailOK, Answered, Propagated, Quiet;
      status, done, stopped, conflictC := Undef, true, false, count;
      var confl := PropagateSearch();
      if confl != CREF_UNDEF {
        conflictC := conflictC + 1;
        if |trailLim| == 0 {
          FalseAnswered(confl);
          status := False;
        } else {
          ConflictSearch(confl);
          done := false;
        }
      } else {
        var exhausted: bool := *;   // interrupted, or out of conflicts or propagations
        exhausted := limited && exhausted;
        if (nofConflicts >= 0 && conflictC >= nofConflicts) || exhausted {
          Restart();
          InvValid();
          UndefAnswered();
          stopped := exhausted;
        } else {
          status, done := SearchStep();
        }
      }
    }

    // One round without a conflict: housekeeping, assumptions, a decision.
    method SearchStep() returns (status: LBool, done: bool)
      requires Searching() && ok && qhead == |trail| && conflict == []
      modifies `ok, `assigns, `vardata, `trail, `trailLim, `pos, `qhead, `clauses, `learnts, `seen, `conflict, ca,
               watches, order
      ensures if done then status != Undef && Answered(status)
              else Searching() && ok && conflict == [] && Room() < old(Room())
      ensures |assigns| == |old(assigns)| && (!done ==> |trailLim| > |old(trailLim)|)
      ensures Quiet(old(assumptions), old(decision), old(assigns)) ==> done && status == True
    {
      hide Inv, CoreInv, SearchOK, Measure, TrailOK, Frame, Unsatisfiable, Finished, Implied, FromAssumptions,
           SameButReasons, NothingOpen;
      status, done := Undef, true;
      Housekeeping();
      SameEnds(old(T()), T());
      var failed, found, p := NextAssumption();
      if failed {
        return False, true;
      }
      ghost var decided;
      var finished;
      finished, decided := Branch(found, p);
      if finished {
        return True, true;
      }
      done := false;
    }

    // ---------- solving ----------

    // The restart base of round k.
    method RestartBase(k: nat) returns (base: real, ghost e: nat)
      ensures base == Pow(restartInc, e)
      ensures if lubyRestart then IsExponent(k, e) else e == k
      ensures if lubyRestart then exists x :: IsExponent(k, x) && base == Pow(restartInc, x)
          else base == Pow(restartInc, k)
    {
      if lubyRestart {
        base, e := Luby(restartInc, k);
      } else {
        e := k;
        base := Pow(restartInc, k);
      }
    }

    // A round of restarts whose conflict limit no search can reach.
    lemma LastRound(bound: nat) returns (k: nat)
      requires restartInc > 1.0 && restartFirst >= 1
      ensures forall e: nat :: (if lubyRestart then IsExponent(k, e) else e == k) ==>
                (Pow(restartInc, e) * restartFirst as real).Floor >= bound
    {
      var x := PowUnbounded(restartInc, bound);
      k := if lubyRestart then |Block(x)| - 1 else x;
      forall e: nat | if lubyRestart then IsExponent(k, e) else e == k
        ensures (Pow(restartInc, e) * restartFirst as real).Floor >= bound
      {
        if lubyRestart { LastExponent(x, e); }
        LimitLarge(Pow(restartInc, x), restartFirst, bound);
      }
    }

    lemma LimitLarge(base: real, first: nat, bound: nat)
      requires base >= bound as real && first >= 1
      ensures (base * first as real).Floor >= bound
    {
      ProductNonNegative(base, first as real - 1.0);
      assert base * first as real == base + base * (first as real - 1.0);
    }

    /** Restarts the search until there is an answer or the budget is used up. */
    method SearchWithRestarts() returns (status: LBool, stopped: bool)
      requires Valid() && ok && InRange(assumptions, |assigns|) && conflict == [] && restartInc > 1.0
          && restartFirst >= 1
      modifies `ok, `assigns, `vardata, `trail, `trailLim, `pos, `qhead, `polarity, `clauses, `learnts, `seen,
               `activity, `varInc, `claInc, `analyzeStack, `analyzeToclear, `conflict, ca, watches, order
      ensures Answered(status) && |assigns| == |old(assigns)|
      ensures status == Undef ==> stopped && limited
      ensures Quiet(old(assumptions), old(decision), old(assigns)) ==> status != False
    {
      hide Answered, Valid, Pow, IsExponent, Power, Quiet;
      status, stopped := Undef, false;
      ghost var n, bound := |assigns|, ConflictBound();
      ghost var last := LastRound(bound);
      var currRestarts := 0;
      UndefAnswered();
      while status == Undef
        invariant Answered(status) && |assigns| == n
        invariant status == Undef ==> ok && Valid() && conflict == [] && currRestarts <= last
        invariant Quiet(old(assumptions), old(decision), old(assigns)) ==>
            status != False && (status == Undef ==> assigns == old(assigns))
        decreases if status == Undef then last + 1 - currRestarts else 0
      {
        ghost var e;
        var base;
        base, e := RestartBase(currRestarts);
        status, stopped := Search((base * restartFirst as real).Floor);
        var exhausted: bool := *;
        stopped := stopped || (limited && exhausted);
        if stopped {
          break;
        }
        UndefFacts(status);
        currRestarts := currRestarts + 1;
      }
    }

    lemma UndefFacts(status: LBool)
      requires Answered(status)
      ensures status == Undef ==> ok && Valid() && conflict == []
    {
      if status == Undef { CoreFrame(); }
    }

    lemma InvValid()
      requires Inv() && ok && |trailLim| == 0 && qhead == |trail|
      ensures Valid()
    {
    }

    // Back to level 0 after an answer.
    method Undo()
      requires Frame() && (if ok then Inv() && qhead == |trail| else |trailLim| == 0 && Unsatisfiable(added))
      modifies `assigns, `polarity, `trail, `trailLim, `qhead, order
      ensures Valid() && |assigns| == |old(assigns)|
    {
      hide Inv, WatchOK, TrailOK, ReasonsOK, DbOK, HeapInv, Unsatisfiable, ClauseAllocator.Valid, OccLists.Valid,
           OccKeys;
      if ok {
        Restart();
        InvValid();
      } else {
        CancelUntil(0);
      }
    }

    // The assignment is what a True answer promises.
    lemma FinishedModel()
      requires Inv() && Finished() && qhead == |trail|
      ensures GoodModel(assigns, decision, assumptions, added)
    {
      hide AllWitnessed;
      InvState();
      CompleteWitness(added, ca.mem, watches.occs, watches.dirty, T(), clauses, learnts, ca.sz, ca.wasted);
    }

    /** Decides the added clauses under the assumptions.  True comes with a model of the
        assumptions and, if no more than one variable is not a decision variable, of every clause
        ever added.  False comes with a contradiction of the clauses alone, or with a clause of
        negated assumptions that the clauses imply; with nothing to assume and nothing left to
        decide the answer is never False.  Undef comes only when the budget is used up. */
    method Solve() returns (status: LBool, stopped: bool)
      requires Valid() && InRange(assumptions, |assigns|) && restartInc > 1.0 && restartFirst >= 1
      modifies `ok, `assigns, `vardata, `trail, `trailLim, `pos, `qhead, `polarity, `clauses, `learnts, `seen,
               `activity, `varInc, `claInc, `analyzeStack, `analyzeToclear, `conflict, `model, ca, watches, order
      ensures Valid() && |assigns| == |old(assigns)|
      ensures status == True ==> GoodModel(model, decision, assumptions, added)
      ensures status == True && OneUndecided(decision) ==> Models(ModelOf(model), added)
      ensures old(ok) && Quiet(assumptions, old(decision), old(assigns)) ==> status != False
      ensures status == False && conflict == [] ==> !ok && Unsatisfiable(added)
      ensures status == False && conflict != [] ==> Implied(added, conflict) && FromAssumptions(conflict, assumptions)
      ensures status == Undef ==> stopped && limited
      ensures status != False ==> conflict == [] && ok
      ensures status != True ==> model == []
    {
      hide Answered, Valid, OneUndecided, Quiet, Unsatisfiable, Implied, FromAssumptions, Frame, Models, GoodModel;
      model, conflict, stopped := [], [], false;
      if !ok {
        ValidFacts();
        return False, stopped;
      }
      status, stopped := SearchWithRestarts();
      Conclude(status);
      if status == True { GoodModelSatisfies(model, decision, assumptions, added); }
    }

    // Saves the model or the contradiction and undoes the search.
    method Conclude(status: LBool)
      requires Answered(status) && model == []
      modifies `ok, `model, `assigns, `polarity, `trail, `trailLim, `qhead, order
      ensures Valid() && |assigns| == |old(assigns)|
      ensures status == True ==> GoodModel(model, decision, assumptions, added)
      ensures status == False && conflict == [] ==> !ok && Unsatisfiable(added)
      ensures status == False && conflict != [] ==> Implied(added, conflict) && FromAssumptions(conflict, assumptions)
      ensures status != False ==> conflict == [] && ok
      ensures status != True ==> model == []
    {
      hide Inv, Answered, Valid, Unsatisfiable, Implied, FromAssumptions, Frame, GoodModel;
      AnswerFacts(status);
      if status == True {
        model := assigns;
      } else if status == False && conflict == [] {
        ok := false;
      }
      Undo();
    }

    lemma ValidFacts()
      requires Valid()
      ensures Frame() && |trailLim| == 0 && (!ok ==> Unsatisfiable(added))
    {
    }

    // What Answered says, for each of the answers.
    lemma AnswerFacts(status: LBool)
      requires Answered(status)
      ensures Frame() && (status != False ==> ok && conflict == [])
      ensures if status == False && conflict == [] then |trailLim| == 0 && Unsatisfiable(added)
              else Inv() && ok && qhead == |trail|
      ensures status == False && conflict != [] ==> Implied(added, conflict) && FromAssumptions(conflict, assumptions)
      ensures status == True ==> GoodModel(assigns, decision, assumptions, added)
    {
      hide Inv, Frame, Finished, GoodModel, Unsatisfiable;
      FrameOf();
      if status == True { FinishedModel(); }
    }

    lemma FrameOf()
      ensures Inv() ==> Frame()
    {
    }

    /** Solving with the given assumptions. */
    method SolveLimited(assumps: seq<Lit>) returns (status: LBool, stopped: bool)
      requires Valid() && InRange(assumps, |assigns|) && restartInc > 1.0 && restartFirst >= 1
      modifies `ok, `assigns, `vardata, `trail, `trailLim, `pos, `qhead, `polarity, `clauses, `learnts, `seen,
               `activity, `varInc, `claInc, `analyzeStack, `analyzeToclear, `conflict, `model, `assumptions, ca,
               watches, order
      ensures Valid() && |assigns| == |old(assigns)|
      ensures status == True ==> GoodModel(model, decision, assumps, added)
      ensures status == True && OneUndecided(decision) ==> Models(ModelOf(model), added)
      ensures old(ok) && Quiet(assumps, old(decision), old(assigns)) ==> status != False
      ensures status == False ==> forall A :: Models(A, added) ==> exists p :: p in assumps && !Holds(A, p)
      ensures status == Undef ==> stopped && limited
    {
      hide Valid, GoodModel, Implied, FromAssumptions;
      assumptions := assumps;
      status, stopped := Solve();
      if status == False && conflict != [] {
        forall A | Models(A, added) ensures exists p :: p in assumps && !Holds(A, p) {
          FailedAssumptions(added, conflict, assumps, A);
        }
      }
    }

    /** Solving without a budget, and without an interrupt: true only with a good model, and
        false only if no model of the clauses satisfies the assumptions. */
    method SolveUnlimited(assumps: seq<Lit>) returns (sat: bool)
      requires Valid() && InRange(assumps, |assigns|) && restartInc > 1.0 && restartFirst >= 1
      modifies `ok, `assigns, `vardata, `trail, `trailLim, `pos, `qhead, `polarity, `clauses, `learnts, `seen,
               `activity, `varInc, `claInc, `analyzeStack, `analyzeToclear, `conflict, `model, `assumptions, `limited,
               ca, watches, order
      ensures Valid() && |assigns| == |old(assigns)| && !limited
      ensures sat ==> GoodModel(model, decision, assumps, added)
      ensures sat && OneUndecided(decision) ==> Models(ModelOf(model), added)
      ensures !sat ==> forall A :: Models(A, added) ==> exists p :: p in assumps && !Holds(A, p)
    {
      hide Valid, GoodModel;
      limited := false;
      var status, stopped := SolveLimited(assumps);
      sat := status == True;
    }
  }
}
