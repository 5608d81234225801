/** When a literal of the learnt clause is redundant: no chain of reasons leads from it, through
    variables that are not marked, to one where the search must give up. */
module SatRedundancy {
  import opened SatTypes
  import opened SatCore
  import opened SatLearn
  import opened SatMinimize
  import opened SatUip

  // ---------- sets of levels as bits ----------

  function Bit(r: nat): bv32
    requires r < 32
  {
    (1 as bv32) << r
  }

  // Some bit is set in both.
  predicate Meet(x: bv32, y: bv32) {
    x & y != 0
  }

  predicate HasBit(a: bv32, r: nat) {
    r < 32 && Meet(Bit(r), a)
  }

  lemma BitsDiffer(r: nat, s: nat)
    requires r < 32 && s < 32
    ensures Meet(Bit(r), Bit(s)) <==> r == s
  {
  }

  lemma MeetIs(x: bv32, y: bv32)
    ensures Meet(x, y) == (x & y != 0)
  {
  }

  lemma AndOr(x: bv32, a: bv32, b: bv32)
    ensures x & (a | b) != 0 <==> x & a != 0 || x & b != 0
  {
  }

  lemma Distribute(x: bv32, a: bv32, b: bv32)
    ensures Meet(x, a | b) <==> Meet(x, a) || Meet(x, b)
  {
    hide Meet;
    MeetIs(x, a | b);
    MeetIs(x, a);
    MeetIs(x, b);
    AndOr(x, a, b);
  }

  lemma OneMoreBit(a: bv32, r: nat, s: nat)
    requires r < 32
    ensures HasBit(a | Bit(r), s) <==> HasBit(a, s) || s == r
  {
    hide Bit, Meet;
    if s < 32 {
      BitsDiffer(s, r);
      Distribute(Bit(s), a, Bit(r));
    }
  }

  // The bits of a are the residues in levels.
  ghost predicate Abstracts(a: bv32, levels: set<nat>) {
    forall r: nat :: HasBit(a, r) <==> r in levels
  }

  // The residues mod 32 of the levels of the literals of c from index 1 up to k.
  ghost function Residues(t: TrailState, c: seq<Lit>, k: nat): set<nat> {
    set i | 1 <= i < k && i < |c| :: t.Lev(c[i].v) % 32
  }

  lemma NoBits()
    ensures Abstracts(0, {})
  {
  }

  lemma AbstractsMore(a: bv32, levels: set<nat>, r: nat)
    requires Abstracts(a, levels) && r < 32
    ensures Abstracts(a | Bit(r), levels + {r})
  {
    hide HasBit, Bit;
    forall s: nat ensures HasBit(a | Bit(r), s) <==> s in levels + {r} {
      OneMoreBit(a, r, s);
    }
  }

  lemma ResiduesNext(t: TrailState, c: seq<Lit>, k: nat)
    requires 1 <= k < |c|
    ensures Residues(t, c, k + 1) == Residues(t, c, k) + {t.Lev(c[k].v) % 32}
  {
  }

  // ---------- chains of reasons ----------

  // y is unmarked, above level 0, and occurs in the reason of x after the literal of x itself.
  ghost predicate Step(mem: Memory, t: TrailState, seen: seq<bool>, x: Var, y: Var) {
    && t.Why(x) in mem && HasVar(mem[t.Why(x)].lits, y)
    && y < |seen| && !seen[y] && t.Lev(y) > 0
  }

  // The search must give up at a decision, and at a level that no literal of the clause can have.
  predicate Blocked(t: TrailState, levels: set<nat>, y: Var) {
    t.Why(y) == CREF_UNDEF || t.Lev(y) % 32 !in levels
  }

  ghost predicate Chain(mem: Memory, t: TrailState, seen: seq<bool>, xs: seq<Var>) {
    |xs| >= 2 && forall i :: 0 <= i < |xs| - 1 ==> Step(mem, t, seen, xs[i], xs[i + 1])
  }

  // A chain leads from p to v.
  ghost predicate Reaches(mem: Memory, t: TrailState, seen: seq<bool>, p: Var, v: Var) {
    exists xs :: Chain(mem, t, seen, xs) && xs[0] == p && xs[|xs| - 1] == v
  }

  /** Some chain leads from p to a variable at which the search must give up. */
  ghost predicate Irredundant(mem: Memory, t: TrailState, seen: seq<bool>, levels: set<nat>, p: Var) {
    exists v :: Reaches(mem, t, seen, p, v) && Blocked(t, levels, v)
  }

  lemma ReachStep(mem: Memory, t: TrailState, seen: seq<bool>, p: Var, x: Var, y: Var)
    requires (x == p || Reaches(mem, t, seen, p, x)) && Step(mem, t, seen, x, y)
    ensures Reaches(mem, t, seen, p, y)
  {
    var xs := [p];
    if x != p {
      xs :| Chain(mem, t, seen, xs) && xs[0] == p && xs[|xs| - 1] == x;
    }
    var ys := xs + [y];
    forall i | 0 <= i < |ys| - 1 ensures Step(mem, t, seen, ys[i], ys[i + 1]) {
      if i < |xs| - 1 { assert Step(mem, t, seen, xs[i], xs[i + 1]); }
    }
    assert Chain(mem, t, seen, ys) && ys[0] == p && ys[|ys| - 1] == y;
  }

  lemma ReachTrans(mem: Memory, t: TrailState, seen: seq<bool>, p: Var, x: Var, y: Var)
    requires Reaches(mem, t, seen, p, x) && Reaches(mem, t, seen, x, y)
    ensures Reaches(mem, t, seen, p, y)
  {
    var xs :| Chain(mem, t, seen, xs) && xs[0] == p && xs[|xs| - 1] == x;
    var ys :| Chain(mem, t, seen, ys) && ys[0] == x && ys[|ys| - 1] == y;
    var zs := xs + ys[1..];
    forall i | 0 <= i < |zs| - 1 ensures Step(mem, t, seen, zs[i], zs[i + 1]) {
      if i < |xs| - 1 {
        assert Step(mem, t, seen, xs[i], xs[i + 1]);
      } else {
        assert Step(mem, t, seen, ys[i - |xs| + 1], ys[i - |xs| + 2]);
      }
    }
    assert Chain(mem, t, seen, zs) && zs[0] == p && zs[|zs| - 1] == y;
  }

  // ---------- the search ----------

  // v has been marked by the search.
  predicate Found(seen0: seq<bool>, seen: seq<bool>, v: Var) {
    v < |seen| && v < |seen0| && seen[v] && !seen0[v]
  }

  /** What the search from p has marked since seen0 is reached from p and not blocked; the stack
      holds such variables, and p. */
  ghost predicate Explored(mem: Memory, t: TrailState, seen0: seq<bool>, seen: seq<bool>, levels: set<nat>,
          stack: seq<Lit>, p: Var)
  {
    && MarkedMore(seen0, seen)
    && (forall v :: Found(seen0, seen, v) ==> Reaches(mem, t, seen0, p, v) && !Blocked(t, levels, v))
    && (forall i :: 0 <= i < |stack| ==> stack[i].v == p || Found(seen0, seen, stack[i].v))
  }

  lemma StartExplored(mem: Memory, t: TrailState, seen: seq<bool>, levels: set<nat>, p: Lit)
    ensures Explored(mem, t, seen, seen, levels, [p], p.v)
  {
  }

  lemma PopExplored(mem: Memory, t: TrailState, seen0: seq<bool>, seen: seq<bool>, levels: set<nat>, stack: seq<Lit>,
          p: Var)
    requires Explored(mem, t, seen0, seen, levels, stack, p) && |stack| > 0
    ensures Explored(mem, t, seen0, seen, levels, stack[..|stack| - 1], p)
    ensures var x := stack[|stack| - 1].v; x == p || Found(seen0, seen, x)
  {
  }

  // A literal of the reason of x that is neither marked nor of level 0.
  lemma ExploreStep(mem: Memory, t: TrailState, seen0: seq<bool>, seen: seq<bool>, levels: set<nat>, stack: seq<Lit>,
          p: Var, x: Var, q: Lit)
    requires Explored(mem, t, seen0, seen, levels, stack, p) && (x == p || Found(seen0, seen, x))
    requires q.v < |seen| && !seen[q.v] && t.Lev(q.v) > 0
    requires t.Why(x) in mem && HasVar(mem[t.Why(x)].lits, q.v)
    ensures Blocked(t, levels, q.v) ==> Irredundant(mem, t, seen0, levels, p)
    ensures !Blocked(t, levels, q.v) ==> Explored(mem, t, seen0, seen[q.v := true], levels, stack + [q], p)
  {
    hide Reaches;
    ReachStep(mem, t, seen0, p, x, q.v);
    if !Blocked(t, levels, q.v) {
      var seen', stack' := seen[q.v := true], stack + [q];
      forall i | 0 <= i < |stack'| ensures stack'[i].v == p || Found(seen0, seen', stack'[i].v) {
      }
    }
  }

  // Every variable that the search from p can reach has been marked.
  lemma {:induction false} ChainFound(mem: Memory, t: TrailState, seen0: seq<bool>, seen: seq<bool>, p: Var,
          xs: seq<Var>, k: nat)
    requires Redundancy(mem, t, seen0, seen, [], p) && Chain(mem, t, seen0, xs) && xs[0] == p && 1 <= k < |xs|
    ensures Found(seen0, seen, xs[k])
  {
    var x := xs[k - 1];
    if k == 1 {
    } else {
      ChainFound(mem, t, seen0, seen, p, xs, k - 1);
    }
    assert Step(mem, t, seen0, x, xs[k]) && Justified(mem, t, seen, x);
  }

  /** The search has marked exactly what p reaches, so nothing reached is blocked. */
  lemma ExploredAll(mem: Memory, t: TrailState, seen0: seq<bool>, seen: seq<bool>, levels: set<nat>, p: Var)
    requires Redundancy(mem, t, seen0, seen, [], p) && Explored(mem, t, seen0, seen, levels, [], p)
    ensures !Irredundant(mem, t, seen0, levels, p)
    ensures forall v :: Found(seen0, seen, v) <==> Reaches(mem, t, seen0, p, v)
  {
    hide Redundancy;
    forall v | Reaches(mem, t, seen0, p, v) ensures Found(seen0, seen, v) {
      var xs :| Chain(mem, t, seen0, xs) && xs[0] == p && xs[|xs| - 1] == v;
      ChainFound(mem, t, seen0, seen, p, xs, |xs| - 1);
    }
  }

  // ---------- marks left by earlier searches ----------

  /** What has been marked since seen0 is neither blocked nor leads to anything blocked. */
  ghost predicate CleanMarks(mem: Memory, t: TrailState, seen0: seq<bool>, seen: seq<bool>, levels: set<nat>) {
    && MarkedMore(seen0, seen)
    && forall v :: Found(seen0, seen, v) ==> !Blocked(t, levels, v) && !Irredundant(mem, t, seen0, levels, v)
  }

  lemma StartClean(mem: Memory, t: TrailState, seen: seq<bool>, levels: set<nat>)
    ensures CleanMarks(mem, t, seen, seen, levels)
  {
  }

  lemma StepMore(mem: Memory, t: TrailState, seen0: seq<bool>, seen: seq<bool>, p: Var, v: Var)
    requires MarkedMore(seen0, seen) && Reaches(mem, t, seen, p, v)
    ensures Reaches(mem, t, seen0, p, v)
  {
    var xs :| Chain(mem, t, seen, xs) && xs[0] == p && xs[|xs| - 1] == v;
    forall i | 0 <= i < |xs| - 1 ensures Step(mem, t, seen0, xs[i], xs[i + 1]) {
      assert Step(mem, t, seen, xs[i], xs[i + 1]);
    }
    assert Chain(mem, t, seen0, xs);
  }

  // A chain that runs into a variable marked since leads to nothing blocked.
  lemma MarkedOnChain(mem: Memory, t: TrailState, seen0: seq<bool>, seen: seq<bool>, levels: set<nat>, xs: seq<Var>,
          i: nat)
    requires CleanMarks(mem, t, seen0, seen, levels) && Chain(mem, t, seen0, xs) && i < |xs|
        && Found(seen0, seen, xs[i])
    ensures !Blocked(t, levels, xs[|xs| - 1])
  {
    if i < |xs| - 1 {
      var ys := xs[i..];
      forall j | 0 <= j < |ys| - 1 ensures Step(mem, t, seen0, ys[j], ys[j + 1]) {
        assert Step(mem, t, seen0, xs[i + j], xs[i + j + 1]);
      }
      assert Chain(mem, t, seen0, ys) && ys[0] == xs[i] && ys[|ys| - 1] == xs[|xs| - 1];
      assert Reaches(mem, t, seen0, xs[i], xs[|xs| - 1]);
    }
  }

  /** Such marks do not change what is redundant. */
  lemma MarksIrrelevant(mem: Memory, t: TrailState, seen0: seq<bool>, seen: seq<bool>, levels: set<nat>, p: Var)
    requires CleanMarks(mem, t, seen0, seen, levels)
    ensures Irredundant(mem, t, seen, levels, p) <==> Irredundant(mem, t, seen0, levels, p)
  {
    if Irredundant(mem, t, seen, levels, p) {
      var v :| Reaches(mem, t, seen, p, v) && Blocked(t, levels, v);
      StepMore(mem, t, seen0, seen, p, v);
    }
    if Irredundant(mem, t, seen0, levels, p) {
      var v :| Reaches(mem, t, seen0, p, v) && Blocked(t, levels, v);
      var xs :| Chain(mem, t, seen0, xs) && xs[0] == p && xs[|xs| - 1] == v;
      forall i | 0 <= i < |xs| - 1 ensures Step(mem, t, seen, xs[i], xs[i + 1]) {
        assert Step(mem, t, seen0, xs[i], xs[i + 1]);
        if seen[xs[i + 1]] { MarkedOnChain(mem, t, seen0, seen, levels, xs, i + 1); }
      }
      assert Chain(mem, t, seen, xs);
    }
  }

  /** The marks of a successful search leave the marks clean. */
  lemma StillClean(mem: Memory, t: TrailState, seen0: seq<bool>, seen1: seq<bool>, seen: seq<bool>, levels: set<nat>,
          p: Var)
    requires CleanMarks(mem, t, seen0, seen1, levels) && MarkedMore(seen1, seen)
    requires !Irredundant(mem, t, seen1, levels, p)
    requires forall v :: Found(seen1, seen, v) <==> Reaches(mem, t, seen1, p, v)
    ensures CleanMarks(mem, t, seen0, seen, levels)
  {
    hide Reaches;
    forall v | Found(seen0, seen, v)
      ensures !Blocked(t, levels, v) && !Irredundant(mem, t, seen0, levels, v)
    {
      if !Found(seen0, seen1, v) {
        assert Reaches(mem, t, seen1, p, v);
        MarksIrrelevant(mem, t, seen0, seen1, levels, v);
        if Irredundant(mem, t, seen1, levels, v) {
          var y :| Reaches(mem, t, seen1, v, y) && Blocked(t, levels, y);
          ReachTrans(mem, t, seen1, p, v, y);
        }
      }
    }
  }

  // ---------- what is left of the learnt clause ----------

  // All other literals of the reason of v are marked or of level 0.
  ghost predicate ReasonKnown(mem: Memory, t: TrailState, seen: seq<bool>, v: Var) {
    t.Why(v) in mem && forall y: Var :: HasVar(mem[t.Why(v)].lits, y) ==> t.Lev(y) == 0 || (y < |seen| && seen[y])
  }

  /** Whether minimisation drops a literal of variable v: in mode 2 if no chain of reasons leads to
      where the search gives up, in mode 1 if all of its reason is known; never a decision. */
  ghost predicate MayDrop(mode: nat, mem: Memory, t: TrailState, seen: seq<bool>, levels: set<nat>, v: Var) {
    && t.Why(v) != CREF_UNDEF
    && ((mode == 2 && !Irredundant(mem, t, seen, levels, v)) || (mode == 1 && ReasonKnown(mem, t, seen, v)))
  }

  /** c is what minimisation leaves of the clause c0: its first literal and those not dropped. */
  ghost predicate Minimized(mode: nat, mem: Memory, t: TrailState, seen: seq<bool>, c0: seq<Lit>, c: seq<Lit>) {
    && |c| >= 1 && |c0| >= 1 && c[0] == c0[0]
    && forall q :: q in c[1..] <==> q in c0[1..] && !MayDrop(mode, mem, t, seen, Residues(t, c0, |c0|), q.v)
  }

  // The same up to index i of c0, with what is left in the first j places of out.
  ghost predicate MinimizedUpTo(mode: nat, mem: Memory, t: TrailState, seen: seq<bool>, levels: set<nat>, c0: seq<Lit>,
          i: nat, out: seq<Lit>, j: nat)
  {
    && 1 <= j <= i <= |c0| == |out| && out[0] == c0[0] && out[i..] == c0[i..]
    && forall q :: q in out[1..j] <==> q in c0[1..i] && !MayDrop(mode, mem, t, seen, levels, q.v)
  }

  lemma StartMinimized(mode: nat, mem: Memory, t: TrailState, seen: seq<bool>, levels: set<nat>, c0: seq<Lit>)
    requires |c0| >= 1
    ensures MinimizedUpTo(mode, mem, t, seen, levels, c0, 1, c0, 1)
  {
  }

  lemma MinimizedNext(mode: nat, mem: Memory, t: TrailState, seen: seq<bool>, levels: set<nat>, c0: seq<Lit>, i: nat,
          out: seq<Lit>, j: nat)
    requires MinimizedUpTo(mode, mem, t, seen, levels, c0, i, out, j) && i < |c0|
    ensures out[i] == c0[i]
    ensures if MayDrop(mode, mem, t, seen, levels, c0[i].v)
            then MinimizedUpTo(mode, mem, t, seen, levels, c0, i + 1, out, j)
            else MinimizedUpTo(mode, mem, t, seen, levels, c0, i + 1, out[j := out[i]], j + 1)
  {
    hide MayDrop;
    assert out[i] == out[i..][0] && c0[i] == c0[i..][0];
    assert c0[1..i + 1] == c0[1..i] + [c0[i]];
    assert out[i + 1..] == out[i..][1..] && c0[i + 1..] == c0[i..][1..];
    var out' := out[j := out[i]];
    assert out'[1..j + 1] == out[1..j] + [out[i]];
    assert out'[i + 1..] == out[i + 1..];
  }

  lemma MinimizedEnd(mode: nat, mem: Memory, t: TrailState, seen: seq<bool>, c0: seq<Lit>, out: seq<Lit>, j: nat)
    requires MinimizedUpTo(mode, mem, t, seen, Residues(t, c0, |c0|), c0, |c0|, out, j)
    ensures Minimized(mode, mem, t, seen, c0, out[..j])
  {
    hide MayDrop, Residues;
    assert out[..j][1..] == out[1..j] && c0[1..|c0|] == c0[1..];
  }

  // The same for the clause of the first unique implication point, at index i of the trail.
  ghost predicate LearnedAt(mode: nat, F: Formula, mem: Memory, t: TrailState, confl: CRef, c: seq<Lit>, i: nat,
          seen: seq<bool>, c0: seq<Lit>)
  {
    && i < |t.trail| && FirstPoint(mem, t, ConflictVars(mem, t, confl), i, seen) && Uip(F, t, seen, c0, t.trail[i])
    && Minimized(mode, mem, t, seen, c0, c)
  }

  /** The clause to learn from the conflict in confl: the falsified literals of the first unique
      implication point and of what is reached beside it, minimised. */
  ghost predicate Learned(mode: nat, F: Formula, mem: Memory, t: TrailState, confl: CRef, c: seq<Lit>) {
    exists i: nat, seen, c0 :: LearnedAt(mode, F, mem, t, confl, c, i, seen, c0)
  }

  // The order of the literals after the first does not matter.
  lemma Reordered(mode: nat, mem: Memory, t: TrailState, seen: seq<bool>, c0: seq<Lit>, c: seq<Lit>, d: seq<Lit>,
          btlevel: nat)
    requires Minimized(mode, mem, t, seen, c0, c) && LowerLits(t, c) && t.Lev(c[0].v) == t.DL()
    requires SameLits(d, c) && Asserting(t, d, btlevel) && d[0] == c[0]
    ensures Minimized(mode, mem, t, seen, c0, d)
  {
    hide MayDrop, Residues;
    RestLits(t, c);
    RestLits(t, d);
  }

  lemma RestLits(t: TrailState, c: seq<Lit>)
    requires LowerLits(t, c) && t.Lev(c[0].v) == t.DL()
    ensures forall q :: q in c[1..] <==> q in c && q != c[0]
  {
    forall q | q in c && q != c[0] ensures q in c[1..] {
      var i :| 0 <= i < |c| && c[i] == q;
      assert c[1..][i - 1] == q;
    }
    forall q | q in c[1..] ensures q != c[0] {
      var i :| 0 <= i < |c[1..]| && c[1..][i] == q;
      assert c[i + 1] == q;
    }
  }
}
