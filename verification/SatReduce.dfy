/** Reducing the learnt clauses: the order they are sorted by, what survives, and why sorting the
    list leaves the database as it is. */
module SatReduce {
  import opened SetSizes
  import opened SatTypes
  import opened SatCore
  import opened SatSteps
  import opened SatDatabase
  import opened SatReloc
  import opened ClauseAllocators
  import opened Sorting

  function Size(mem: Memory, cr: CRef): nat {
    if cr in mem then |mem[cr].lits| else 0
  }

  function Activity(act: map<CRef, real>, cr: CRef): real {
    if cr in act then act[cr] else 0.0
  }

  // Long clauses come before binary ones, and inactive clauses before active ones.
  predicate ReduceLt(mem: Memory, act: map<CRef, real>, x: CRef, y: CRef) {
    Size(mem, x) > 2 && (Size(mem, y) == 2 || Activity(act, x) < Activity(act, y))
  }

  function ReduceOrder(mem: Memory, act: map<CRef, real>): (CRef, CRef) -> bool {
    (x, y) => ReduceLt(mem, act, x, y)
  }

  /** The order is a strict weak order on clauses of two literals or more. */
  lemma ReduceWeak(mem: Memory, act: map<CRef, real>, S: multiset<CRef>)
    requires forall x :: x in S ==> Size(mem, x) >= 2
    ensures StrictWeak(ReduceOrder(mem, act), S)
  {
    var lt := ReduceOrder(mem, act);
    forall x, y, z | x in S && y in S && z in S && !lt(y, x) && !lt(z, y) ensures !lt(z, x) {
      assert !ReduceLt(mem, act, y, x) && !ReduceLt(mem, act, z, y);
    }
  }

  // A long clause z, a shorter than binary one y that is no more active, and a clause x after z.
  predicate Disorder(mem: Memory, act: map<CRef, real>, x: CRef, y: CRef, z: CRef) {
    && Size(mem, z) > 2 && Size(mem, y) < 2 && Activity(act, y) <= Activity(act, z)
    && (Size(mem, x) == 2 || Activity(act, z) < Activity(act, x))
  }

  /** In general it is one if and only if no long clause meets a unit clause in this way. */
  lemma ReduceWeakExactly(mem: Memory, act: map<CRef, real>, S: multiset<CRef>)
    ensures StrictWeak(ReduceOrder(mem, act), S) <==>
            forall x, y, z :: x in S && y in S && z in S ==> !Disorder(mem, act, x, y, z)
  {
    var lt := ReduceOrder(mem, act);
    forall x, y, z
      ensures !lt(y, x) && !lt(z, y) && lt(z, x) <==> Disorder(mem, act, x, y, z)
    {
      assert lt(y, x) == ReduceLt(mem, act, y, x) && lt(z, y) == ReduceLt(mem, act, z, y);
    }
  }

  // Sorts a list of clauses of two literals or more.
  method SortReduce(ls: seq<CRef>, mem: Memory, act: map<CRef, real>) returns (s: seq<CRef>)
    requires forall x :: x in multiset(ls) ==> Size(mem, x) >= 2
    ensures multiset(s) == multiset(ls) && Sorted(ReduceOrder(mem, act), s)
  {
    hide ReduceOrder, StrictWeak;
    var a := new CRef[|ls|](i requires 0 <= i < |ls| => ls[i]);
    assert a[..] == ls;
    assert a[0..a.Length] == a[..];
    ReduceWeak(mem, act, multiset(a[0..a.Length]));
    Sort(a, 0, a.Length, ReduceOrder(mem, act));
    assert a[0..a.Length] == a[..];
    s := a[..];
  }

  // A clause reduction may drop: long, no reason, and either early in the order or inactive.
  predicate Expendable(mem: Memory, act: map<CRef, real>, t: TrailState, cr: CRef, lim: real, early: bool) {
    Size(mem, cr) > 2 && !(cr in mem && Locked(t, mem[cr].lits, cr)) && (early || Activity(act, cr) < lim)
  }

  // What is left of the first k clauses of s.
  function Survivors(mem: Memory, act: map<CRef, real>, t: TrailState, s: seq<CRef>, lim: real, k: nat): seq<CRef>
    requires k <= |s|
  {
    if k == 0 then []
    else Survivors(mem, act, t, s, lim, k - 1) + if Expendable(mem, act, t, s[k - 1], lim, k - 1 < |s| / 2) then []
        else [s[k - 1]]
  }

  lemma StartSurvivors(mem: Memory, act: map<CRef, real>, t: TrailState, s: seq<CRef>, lim: real)
    ensures Survivors(mem, act, t, s, lim, 0) == [] && SameContents(mem, mem)
  {
  }

  lemma SurvivorsNext(mem: Memory, act: map<CRef, real>, t: TrailState, s: seq<CRef>, lim: real, ls: seq<CRef>, i: nat,
          j: nat)
    requires j <= i < |s| == |ls| && ls[i] == s[i] && ls[..j] == Survivors(mem, act, t, s, lim, i)
    ensures Survivors(mem, act, t, s, lim, i + 1) ==
            if Expendable(mem, act, t, s[i], lim, i < |s| / 2) then ls[..j] else ls[j := ls[i]][..j + 1]
  {
  }

  // Deleting clauses leaves their contents in place.
  predicate SameContents(mem: Memory, mem': Memory) {
    mem'.Keys == mem.Keys && forall cr :: cr in mem ==> mem'[cr].lits == mem[cr].lits
  }

  lemma SameContentsTrans(mem: Memory, mem1: Memory, mem2: Memory)
    requires SameContents(mem, mem1) && SameContents(mem1, mem2)
    ensures SameContents(mem, mem2)
  {
  }

  // The first k clauses of s without those that are satisfied.
  ghost function Unsatisfied(mem: Memory, t: TrailState, s: seq<CRef>, k: nat): seq<CRef>
    requires k <= |s|
  {
    if k == 0 then []
    else Unsatisfied(mem, t, s, k - 1) + if s[k - 1] in mem && SatisfiedNow(t, mem[s[k - 1]].lits) then []
        else [s[k - 1]]
  }

  lemma StartUnsatisfied(mem: Memory, t: TrailState, s: seq<CRef>)
    ensures Unsatisfied(mem, t, s, 0) == [] && SameContents(mem, mem)
  {
  }

  lemma UnsatisfiedNext(mem: Memory, t: TrailState, s: seq<CRef>, cs: seq<CRef>, i: nat, j: nat)
    requires j <= i < |s| == |cs| && cs[i] == s[i] && cs[..j] == Unsatisfied(mem, t, s, i)
    ensures Unsatisfied(mem, t, s, i + 1) ==
            if s[i] in mem && SatisfiedNow(t, mem[s[i]].lits) then cs[..j] else cs[j := cs[i]][..j + 1]
  {
  }

  /** Simplification keeps all listed clauses that are not satisfied, and no others. */
  lemma {:induction false} UnsatisfiedAre(mem: Memory, t: TrailState, s: seq<CRef>, k: nat, cr: CRef)
    requires k <= |s|
    ensures cr in Unsatisfied(mem, t, s, k) <==> cr in s[..k] && !(cr in mem && SatisfiedNow(t, mem[cr].lits))
  {
    if k == 0 {
    } else {
      UnsatisfiedAre(mem, t, s, k - 1, cr);
      assert s[..k] == s[..k - 1] + [s[k - 1]];
    }
  }

  lemma SameKeys(mem: Memory, mem': Memory, cr: CRef)
    requires SameContents(mem, mem')
    ensures cr in mem' <==> cr in mem
    ensures cr in mem ==> mem'[cr].lits == mem[cr].lits
  {
    assert cr in mem'.Keys <==> cr in mem.Keys;
  }

  lemma {:induction false} UnsatisfiedSame(mem: Memory, t: TrailState, mem': Memory, u: TrailState, s: seq<CRef>,
          k: nat)
    requires SameContents(mem, mem') && u.assigns == t.assigns && k <= |s|
    ensures Unsatisfied(mem', u, s, k) == Unsatisfied(mem, t, s, k)
  {
    hide SameContents, SatisfiedNow;
    if k == 0 {
    } else {
      UnsatisfiedSame(mem, t, mem', u, s, k - 1);
      SameSatisfied(t, u);
      SameKeys(mem, mem', s[k - 1]);
    }
  }

  // The literals of the clauses of a list, whatever references denote them.
  ghost function Texts(mem: Memory, s: seq<CRef>): seq<seq<Lit>> {
    seq(|s|, i requires 0 <= i < |s| => if s[i] in mem then mem[s[i]].lits else [])
  }

  lemma TextsSame(mem: Memory, mem': Memory, s: seq<CRef>)
    requires SameContents(mem, mem')
    ensures Texts(mem', s) == Texts(mem, s)
  {
    forall i | 0 <= i < |s| ensures Texts(mem', s)[i] == Texts(mem, s)[i] {
      SameKeys(mem, mem', s[i]);
    }
  }

  /** Garbage collection changes references, not the clauses listed. */
  lemma TextsMoved(mem: Memory, fwd: Forward, mem': Memory, s: seq<CRef>, s': seq<CRef>)
    requires Moved(mem, fwd, mem') && RenamedRefs(s, s', fwd)
    ensures Texts(mem', s') == Texts(mem, s)
  {
    hide Relocating;
    forall i | 0 <= i < |s| ensures Texts(mem', s')[i] == Texts(mem, s)[i] {
      MovedClause(mem, fwd, mem', s[i]);
    }
  }

  ghost predicate NoneSatisfied(t: TrailState, texts: seq<seq<Lit>>) {
    forall i :: 0 <= i < |texts| ==> !SatisfiedNow(t, texts[i])
  }

  /** No satisfied clause is left. */
  lemma UnsatisfiedTexts(mem: Memory, t: TrailState, u: TrailState, s: seq<CRef>)
    requires u.assigns == t.assigns
    ensures NoneSatisfied(u, Texts(mem, Unsatisfied(mem, t, s, |s|)))
  {
    hide SatisfiedNow;
    var left := Unsatisfied(mem, t, s, |s|);
    SameSatisfied(t, u);
    NoText(u);
    forall i | 0 <= i < |left| ensures !SatisfiedNow(u, Texts(mem, left)[i]) {
      UnsatisfiedAre(mem, t, s, |s|, left[i]);
    }
  }

  lemma NoText(t: TrailState)
    ensures !SatisfiedNow(t, [])
  {
  }

  /** What reduction drops is a long learnt clause that is no reason. */
  lemma {:induction false} SurvivorsKeep(mem: Memory, act: map<CRef, real>, t: TrailState, s: seq<CRef>, lim: real,
          k: nat, i: nat)
    requires i < k <= |s| && (Size(mem, s[i]) <= 2 || (s[i] in mem && Locked(t, mem[s[i]].lits, s[i])))
    ensures s[i] in Survivors(mem, act, t, s, lim, k)
  {
    if i >= k - 1 {
    } else {
      SurvivorsKeep(mem, act, t, s, lim, k - 1, i);
    }
  }

  // The increment divided among n clauses: less active clauses count as inactive.
  function Share(inc: real, n: nat): (r: real)
    ensures n > 0 ==> r * n as real == inc
  {
    if n == 0 then 0.0 else inc / n as real
  }

  // Clauses that reduction must not touch: short ones, and reasons of assigned variables.
  ghost predicate Spared(mem: Memory, t: TrailState, cr: CRef) {
    Size(mem, cr) <= 2 || exists v :: t.Assigned(v) && t.Why(v) == cr
  }

  // Clause cr is before index k in the list s.
  ghost predicate Precedes(s: seq<CRef>, cr: CRef, k: int) {
    exists i :: 0 <= i < |s| && i < k && s[i] == cr
  }

  lemma {:induction false} SurvivorsAre(mem: Memory, act: map<CRef, real>, t: TrailState, s: seq<CRef>, lim: real,
          k: nat, i: nat)
    requires NoDuplicates(s) && i < |s| && k <= |s|
    ensures s[i] in Survivors(mem, act, t, s, lim, k) <==> i < k && !Expendable(mem, act, t, s[i], lim, i < |s| / 2)
  {
    hide Expendable;
    if k == 0 {
    } else {
      SurvivorsAre(mem, act, t, s, lim, k - 1, i);
      assert i != k - 1 ==> s[i] != s[k - 1];
    }
  }

  lemma {:induction false} SurvivorsListed(mem: Memory, act: map<CRef, real>, t: TrailState, s: seq<CRef>, lim: real,
          k: nat, cr: CRef)
    requires k <= |s| && cr in Survivors(mem, act, t, s, lim, k)
    ensures cr in s
  {
    if k == 0 {
    } else if cr != s[k - 1] {
      SurvivorsListed(mem, act, t, s, lim, k - 1, cr);
    }
  }

  // A clause is locked exactly if it is the reason of an assigned variable.
  lemma SparedOrLocked(mem: Memory, t: TrailState, cr: CRef)
    requires ReasonsOK(mem, t) && cr in mem && cr != CREF_UNDEF
    ensures Spared(mem, t, cr) <==> Size(mem, cr) <= 2 || Locked(t, mem[cr].lits, cr)
  {
    if v :| t.Assigned(v) && t.Why(v) == cr {
      assert ReasonOK(mem, t, v);
    }
    if Locked(t, mem[cr].lits, cr) {
      assert t.Assigned(mem[cr].lits[0].v);
    }
  }

  /** What sorting and sweeping amount to: a clause goes only if nothing spares it, and then if it
      is in the first half of the order or inactive; so none that goes is more active than one that
      stays without being spared. */
  ghost predicate Reduced(mem: Memory, act: map<CRef, real>, t: TrailState, s: seq<CRef>, lim: real, ls: seq<CRef>) {
    && (forall cr :: cr in ls ==> cr in s)
    && (forall cr :: cr in s && Spared(mem, t, cr) ==> cr in ls)
    && (forall cr :: cr in s && cr !in ls ==> Precedes(s, cr, |s| / 2) || Activity(act, cr) < lim)
    && (forall cr :: cr in ls && !Spared(mem, t, cr) ==> !Precedes(s, cr, |s| / 2) && Activity(act, cr) >= lim)
    && (forall x, y :: x in s && x !in ls && y in ls && !Spared(mem, t, y) ==> Activity(act, x) <= Activity(act, y))
  }

  lemma SurvivorsReduced(mem: Memory, act: map<CRef, real>, t: TrailState, s: seq<CRef>, lim: real)
    requires ReasonsOK(mem, t) && NoDuplicates(s) && CREF_UNDEF !in mem && forall cr :: cr in s ==> cr in mem
    requires Sorted(ReduceOrder(mem, act), s)
    ensures Reduced(mem, act, t, s, lim, Survivors(mem, act, t, s, lim, |s|))
  {
    hide Survivors, ReasonsOK, Sorted, Spared, Locked;
    var ls := Survivors(mem, act, t, s, lim, |s|);
    forall cr | cr in ls ensures cr in s {
      SurvivorsListed(mem, act, t, s, lim, |s|, cr);
    }
    forall i | 0 <= i < |s|
      ensures s[i] in ls <==>
        Spared(mem, t, s[i]) || (i >= |s| / 2 && Activity(act, s[i]) >= lim)
      ensures Precedes(s, s[i], |s| / 2) <==> i < |s| / 2
    {
      SurvivorsAre(mem, act, t, s, lim, |s|, i);
      SparedOrLocked(mem, t, s[i]);
    }
    forall x, y | x in s && x !in ls && y in ls && !Spared(mem, t, y) ensures Activity(act, x) <= Activity(act, y) {
      var i :| 0 <= i < |s| && s[i] == x;
      var j :| 0 <= j < |s| && s[j] == y;
      SparedOrLocked(mem, t, y);
      if i < j { SortedPair(mem, act, s, i, j); }
    }
  }

  lemma SortedPair(mem: Memory, act: map<CRef, real>, s: seq<CRef>, i: nat, j: nat)
    requires Sorted(ReduceOrder(mem, act), s) && i < j < |s|
    ensures Size(mem, s[j]) <= 2 || Activity(act, s[i]) <= Activity(act, s[j])
  {
    assert !ReduceOrder(mem, act)(s[j], s[i]);
  }

  // ---------- reordering a list of clauses ----------

  /** A permutation of a list holds the same clauses and as many words. */
  lemma PermutedRefs(mem: Memory, cs: seq<CRef>, s: seq<CRef>, learnt: bool)
    requires RefsOK(mem, cs, learnt) && multiset(s) == multiset(cs)
    ensures RefsOK(mem, s, learnt) && TotalWords(mem, s) == TotalWords(mem, cs)
  {
    PermutedLists(cs, s, SetOf(cs));
    forall cr ensures cr in s <==> cr in cs {
    }
    assert SetOf(s) == SetOf(cs);
    ListWords(mem, s);
    ListWords(mem, cs);
  }

  lemma PermutedLearnts(F: Formula, mem: Memory, clauses: seq<CRef>, learnts: seq<CRef>, s: seq<CRef>, t: TrailState,
          sz: nat, wasted: nat)
    requires DatabaseOK(F, mem, clauses, learnts, t, sz, wasted) && multiset(s) == multiset(learnts)
    ensures DatabaseOK(F, mem, clauses, s, t, sz, wasted)
  {
    PermutedRefs(mem, learnts, s, true);
  }

  lemma LearntSizes(mem: Memory, learnts: seq<CRef>, n: nat)
    requires RefsOK(mem, learnts, true) && DbOK(mem, n)
    ensures forall x :: x in multiset(learnts) ==> Size(mem, x) >= 2
  {
    forall x | x in multiset(learnts) ensures Size(mem, x) >= 2 {
      assert x in learnts;
      assert ClauseOK(mem[x].lits, n);
    }
  }
}
