/** The clause region: clauses are placed one after the other, freeing only counts waste, and a
    copying collection moves the live clauses into a new region. */
module ClauseAllocators {
  import opened Basics
  import opened SatTypes
  import opened SatCore

  // Header word, literals, and the activity word of a learnt clause.
  function Words(c: Clause): nat {
    1 + |c.lits| + if c.learnt then 1 else 0
  }

  // The words of the clauses in a list of references.
  function TotalWords(mem: Memory, cs: seq<CRef>): nat {
    if cs == [] then 0
    else (if cs[0] in mem then Words(mem[cs[0]]) else 0) + TotalWords(mem, cs[1..])
  }

  // The words of a set of clauses.
  ghost function SetWords(mem: Memory, s: set<CRef>): nat {
    if exists x :: x in s then
      var x :| x in s;
      (if x in mem then Words(mem[x]) else 0) + SetWords(mem, s - {x})
    else 0
  }

  lemma {:induction false} SetWordsPick(mem: Memory, s: set<CRef>, x: CRef)
    requires x in s
    ensures SetWords(mem, s) == (if x in mem then Words(mem[x]) else 0) + SetWords(mem, s - {x})
    decreases s
  {
    var y :| y in s && SetWords(mem, s) == (if y in mem then Words(mem[y]) else 0) + SetWords(mem, s - {y});
    if x == y {
    } else {
      SetWordsPick(mem, s - {y}, x);
      SetWordsPick(mem, s - {x}, y);
      assert s - {y} - {x} == s - {x} - {y};
    }
  }

  lemma SetWordsAdd(mem: Memory, s: set<CRef>, x: CRef)
    requires x !in s && x in mem
    ensures SetWords(mem, s + {x}) == SetWords(mem, s) + Words(mem[x])
  {
    SetWordsPick(mem, s + {x}, x);
    assert s + {x} - {x} == s;
  }

  /** fwd maps clauses of mem one to one onto the clauses of mem', which are copies. */
  ghost predicate Relocating(mem: Memory, fwd: map<CRef, CRef>, mem': Memory) {
    && (forall cr :: cr in fwd ==> Copied(mem, fwd, mem', cr))
    && (forall a, b :: a in fwd && b in fwd && fwd[a] == fwd[b] ==> a == b)
    && (forall r :: r in mem' ==> exists cr :: cr in fwd && fwd[cr] == r)
  }

  ghost predicate Copied(mem: Memory, fwd: map<CRef, CRef>, mem': Memory, cr: CRef) {
    cr in fwd && cr in mem && fwd[cr] in mem' && mem'[fwd[cr]] == mem[cr]
  }

  ghost predicate SameActivities(mem: Memory, act: map<CRef, real>, fwd: map<CRef, CRef>, act': map<CRef, real>) {
    forall cr :: cr in fwd && cr in mem && mem[cr].learnt ==> cr in act && fwd[cr] in act' && act'[fwd[cr]] == act[cr]
  }

  lemma ActivitiesAdd(mem: Memory, act: map<CRef, real>, fwd: map<CRef, CRef>, act': map<CRef, real>, cr: CRef, r: CRef)
    requires SameActivities(mem, act, fwd, act') && cr in mem && (mem[cr].learnt ==> cr in act)
    requires forall x :: x in fwd ==> fwd[x] != r
    ensures SameActivities(mem, act, fwd[cr := r], if mem[cr].learnt then act'[r := act[cr]] else act')
  {
  }

  predicate ForwardsMore(fwd0: map<CRef, CRef>, fwd: map<CRef, CRef>) {
    forall cr :: cr in fwd0 ==> cr in fwd && fwd[cr] == fwd0[cr]
  }

  lemma RelocatingAdd(mem: Memory, fwd: map<CRef, CRef>, mem': Memory, cr: CRef, r: CRef)
    requires Relocating(mem, fwd, mem') && cr in mem && cr !in fwd && r !in mem'
    ensures Relocating(mem, fwd[cr := r], mem'[r := mem[cr]])
  {
    var fwd', mem2 := fwd[cr := r], mem'[r := mem[cr]];
    forall x | x in fwd' ensures Copied(mem, fwd', mem2, x) {
      if x != cr { assert Copied(mem, fwd, mem', x); }
    }
    forall x | x in fwd ensures fwd[x] != r {
      assert Copied(mem, fwd, mem', x);
    }
    forall y | y in mem2 ensures exists x :: x in fwd' && fwd'[x] == y {
      if y == r { assert fwd'[cr] == r; } else {
        var x :| x in fwd && fwd[x] == y;
        assert fwd'[x] == y;
      }
    }
  }

  // Looking up a relocated clause changes nothing.
  lemma SameForward(fwd0: map<CRef, CRef>, fwd: map<CRef, CRef>, cr: CRef)
    requires ForwardsMore(fwd0, fwd) && fwd.Keys == fwd0.Keys + {cr} && cr in fwd0
    ensures fwd == fwd0
  {
    assert fwd.Keys == fwd0.Keys;
    assert forall x :: x in fwd ==> x in fwd0 && fwd[x] == fwd0[x];
  }

  // The same clauses, with literals possibly reordered.
  ghost predicate SameDb(mem: Memory, mem0: Memory) {
    && mem.Keys == mem0.Keys
    && forall cr :: cr in mem0 ==> SameClause(mem[cr], mem0[cr])
  }

  ghost predicate SameClause(c: Clause, d: Clause) {
    SameLits(c.lits, d.lits) && c.learnt == d.learnt && c.mark == d.mark
  }

  lemma SameDbRefl(mem: Memory)
    ensures SameDb(mem, mem)
  {
  }

  lemma SameDbTrans(mem: Memory, mem1: Memory, mem0: Memory)
    requires SameDb(mem, mem1) && SameDb(mem1, mem0)
    ensures SameDb(mem, mem0)
  {
  }

  lemma SameDbSwap(mem: Memory, cr: CRef, i: nat, j: nat)
    requires cr in mem && i < |mem[cr].lits| && j < |mem[cr].lits|
    ensures SameDb(mem[cr := mem[cr].(lits := Exchanged(mem[cr].lits, i, j))], mem)
  {
    SwapSame(mem[cr].lits, i, j);
  }

  // Forwarding references lie inside the new region.
  lemma RelocatedIn(mem: Memory, fwd: map<CRef, CRef>, mem': Memory, sz: nat)
    requires Relocating(mem, fwd, mem') && forall r :: r in mem' ==> r < sz
    ensures forall cr :: cr in fwd ==> fwd[cr] < sz
  {
    forall cr | cr in fwd ensures fwd[cr] < sz {
      assert Copied(mem, fwd, mem', cr);
    }
  }

  lemma MarkedWords(mem: Memory, mem': Memory, r: CRef)
    requires mem'.Keys == mem.Keys && r in mem && Words(mem'[r]) == Words(mem[r])
    requires mem'[r].learnt == mem[r].learnt && forall cr :: cr in mem && cr != r ==> mem'[cr] == mem[cr]
    ensures forall cr :: cr in mem' ==>
        cr in mem && Words(mem'[cr]) == Words(mem[cr]) && mem'[cr].learnt == mem[cr].learnt
  {
  }

  class ClauseAllocator {
    var mem: Memory
    var act: map<CRef, real>   // the activity word of a learnt clause
    var fwd: map<CRef, CRef>   // the forwarding reference written over a relocated clause
    var sz: nat
    var wasted: nat

    // Clauses lie inside the region and do not overlap.
    ghost predicate Valid()
      reads this
    {
      && (forall cr :: cr in mem ==> 0 <= cr && cr + Words(mem[cr]) <= sz)
      && (forall a, b :: a in mem && b in mem && a < b ==> a + Words(mem[a]) <= b)
      && (forall cr :: cr in mem && mem[cr].learnt ==> cr in act)
    }

    constructor ()
      ensures Valid() && mem == map[] && act == map[] && fwd == map[] && sz == 0 && wasted == 0
    {
      mem, act, fwd, sz, wasted := map[], map[], map[], 0, 0;
    }

    method Alloc(ps: seq<Lit>, learnt: bool) returns (cr: CRef)
      requires Valid()
      modifies `mem, `act, `sz
      ensures Valid() && cr == old(sz) && cr !in old(mem)
      ensures mem == old(mem)[cr := Clause(ps, learnt, 0)]
      ensures sz == old(sz) + Words(mem[cr])
      ensures act == if learnt then old(act)[cr := 0.0] else old(act)
    {
      cr := sz;
      var c := Clause(ps, learnt, 0);
      sz := sz + Words(c);
      mem := mem[cr := c];
      if learnt { act := act[cr := 0.0]; }
    }

    // Marks the clause as deleted; its words stay where they are.
    method MarkDeleted(cr: CRef)
      requires Valid() && cr in mem
      modifies `mem
      ensures Valid() && mem == old(mem)[cr := old(mem)[cr].(mark := 1)]
    {
      mem := mem[cr := mem[cr].(mark := 1)];
    }

    method Free(cr: CRef)
      requires cr in mem
      modifies `wasted
      ensures wasted == old(wasted) + Words(mem[cr])
    {
      wasted := wasted + Words(mem[cr]);
    }

    /** What relocation has done so far: the clauses in fwd have been copied to the region to. */
    ghost predicate RelocInv(to: ClauseAllocator)
      reads this, to
    {
      && Valid() && to.Valid() && to.wasted == 0 && to.fwd == map[]
      && Relocating(mem, fwd, to.mem) && SameActivities(mem, act, fwd, to.act)
      && to.sz == SetWords(mem, fwd.Keys)
    }

    /** Moves a clause to the new region, or looks up where it has gone. */
    method Reloc(cr: CRef, to: ClauseAllocator) returns (r: CRef)
      requires this != to && RelocInv(to) && cr in mem
      modifies `fwd, to
      ensures RelocInv(to) && cr in fwd && r == fwd[cr]
      ensures ForwardsMore(old(fwd), fwd) && fwd.Keys == old(fwd).Keys + {cr}
    {
      hide Relocating;
      if cr in fwd {
        return fwd[cr];
      }
      ghost var mem' := to.mem;
      RelocatingAdd(mem, fwd, mem', cr, to.sz);
      SetWordsAdd(mem, fwd.Keys, cr);
      RelocatedIn(mem, fwd, mem', to.sz);
      ActivitiesAdd(mem, act, fwd, to.act, cr, to.sz);
      r := to.AllocCopy(mem[cr], if mem[cr].learnt then act[cr] else 0.0);
      assert fwd[cr := r].Keys == fwd.Keys + {cr};
      fwd := fwd[cr := r];
    }

    // A clause with the extra fields of another one.
    method AllocCopy(c: Clause, a: real) returns (r: CRef)
      requires Valid()
      modifies `mem, `act, `sz
      ensures Valid() && r == old(sz) && r !in old(mem) && mem == old(mem)[r := c] && sz == old(sz) + Words(c)
      ensures act == if c.learnt then old(act)[r := a] else old(act)
    {
      ghost var mem0 := mem;
      r := Alloc(c.lits, c.learnt);
      assert mem[r].(mark := c.mark) == c;
      assert mem[r := c] == mem0[r := c];
      MarkedWords(mem, mem0[r := c], r);
      mem := mem[r := mem[r].(mark := c.mark)];
      if mem[r].learnt {
        act := act[r := a];
      }
    }

    // Hands this region over to another allocator and is empty afterwards.
    method MoveTo(to: ClauseAllocator)
      requires this != to && Valid()
      modifies this, to
      ensures to.Valid() && to.mem == old(mem) && to.act == old(act) && to.fwd == old(fwd)
      ensures to.sz == old(sz) && to.wasted == old(wasted)
      ensures Valid() && mem == map[] && fwd == map[] && sz == wasted == 0
    {
      to.mem, to.act, to.fwd, to.sz, to.wasted := mem, act, fwd, sz, wasted;
      mem, act, fwd, sz, wasted := map[], map[], map[], 0, 0;
    }

    method SwapLits(cr: CRef, i: nat, j: nat)
      requires Valid() && cr in mem && i < |mem[cr].lits| && j < |mem[cr].lits|
      modifies `mem
      ensures Valid()
      ensures mem == old(mem)[cr := old(mem)[cr].(lits := Exchanged(old(mem)[cr].lits, i, j))]
    {
      mem := mem[cr := mem[cr].(lits := Exchanged(mem[cr].lits, i, j))];
    }
  }
}
