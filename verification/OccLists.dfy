/** Occurrence lists with lazy deletion: a list that may hold watchers of deleted clauses is
    marked dirty and compacted later. */
module OccurrenceLists {
  import opened SatTypes
  import opened SatCore
  import opened SatPropagate

  predicate Deleted(mem: Memory, w: Watcher) {
    w.cref in mem && mem[w.cref].mark == 1
  }

  function Kept(mem: Memory, ws: seq<Watcher>): seq<Watcher> {
    if ws == [] then []
    else Kept(mem, ws[..|ws| - 1]) + if Deleted(mem, ws[|ws| - 1]) then [] else [ws[|ws| - 1]]
  }

  lemma {:induction false} KeptStep(mem: Memory, ws: seq<Watcher>, i: nat)
    requires i < |ws|
    ensures Kept(mem, ws[..i + 1]) == Kept(mem, ws[..i]) + if Deleted(mem, ws[i]) then [] else [ws[i]]
  {
    assert ws[..i + 1][..i] == ws[..i];
  }

  lemma {:induction false} KeptSubset(mem: Memory, ws: seq<Watcher>)
    ensures |Kept(mem, ws)| <= |ws|
    ensures forall w :: w in Kept(mem, ws) <==> w in ws && !Deleted(mem, w)
  {
    if ws == [] {
    } else {
      KeptSubset(mem, ws[..|ws| - 1]);
      assert ws == ws[..|ws| - 1] + [ws[|ws| - 1]];
    }
  }

  predicate DistinctRefs(ws: seq<Watcher>) {
    forall i, j :: 0 <= i < j < |ws| ==> ws[i].cref != ws[j].cref
  }

  lemma {:induction false} KeptDistinct(mem: Memory, ws: seq<Watcher>)
    requires DistinctRefs(ws)
    ensures DistinctRefs(Kept(mem, ws))
  {
    if ws == [] {
    } else {
      var us := ws[..|ws| - 1];
      KeptDistinct(mem, us);
      KeptSubset(mem, us);
      forall w | w in Kept(mem, us) ensures w.cref != ws[|ws| - 1].cref {
        var i :| 0 <= i < |us| && us[i] == w;
      }
    }
  }

  class OccLists {
    var occs: map<Lit, seq<Watcher>>
    var dirty: set<Lit>
    var dirties: seq<Lit>

    // Every dirty list is on the list of dirties.
    ghost predicate Valid()
      reads this
    {
      && (forall l :: l in dirty ==> l in dirties)
      && (forall l :: l in dirties ==> l in occs)
    }

    constructor ()
      ensures Valid() && occs == map[] && dirty == {} && dirties == []
    {
      occs, dirty, dirties := map[], {}, [];
    }

    method Init(l: Lit)
      requires Valid() && l !in occs
      modifies `occs
      ensures Valid() && occs == old(occs)[l := []]
    {
      occs := occs[l := []];
    }

    method Push(l: Lit, w: Watcher)
      requires Valid() && l in occs
      modifies `occs
      ensures Valid() && occs == old(occs)[l := old(occs)[l] + [w]]
    {
      occs := occs[l := occs[l] + [w]];
    }

    method Put(l: Lit, j: nat, w: Watcher)
      requires Valid() && l in occs && j < |occs[l]|
      modifies `occs
      ensures Valid() && occs == old(occs)[l := old(occs)[l][j := w]]
    {
      occs := occs[l := occs[l][j := w]];
    }

    method Shrink(l: Lit, j: nat)
      requires Valid() && l in occs && j <= |occs[l]|
      modifies `occs
      ensures Valid() && occs == old(occs)[l := old(occs)[l][..j]]
    {
      occs := occs[l := occs[l][..j]];
    }

    method Smudge(l: Lit)
      requires Valid() && l in occs
      modifies `dirty, `dirties
      ensures Valid() && dirty == old(dirty) + {l}
    {
      if l !in dirty {
        dirty := dirty + {l};
        dirties := dirties + [l];
      }
    }

    // Compacts one list in place.
    method Clean(mem: Memory, l: Lit)
      requires Valid() && l in occs
      modifies `occs, `dirty
      ensures Valid() && dirty == old(dirty) - {l}
      ensures occs == old(occs)[l := Kept(mem, old(occs)[l])]
    {
      ghost var ws := occs[l];
      var i, j := 0, 0;
      while i < |occs[l]|
        invariant Valid() && dirty == old(dirty) && l in occs
        invariant 0 <= j <= i <= |ws| == |occs[l]|
        invariant occs == old(occs)[l := occs[l]]
        invariant occs[l][..j] == Kept(mem, ws[..i])
        invariant forall k :: i <= k < |ws| ==> occs[l][k] == ws[k]
      {
        KeptStep(mem, ws, i);
        assert occs[l][i] == ws[i];
        if !Deleted(mem, occs[l][i]) {
          Put(l, j, occs[l][i]);
          j := j + 1;
        }
        i := i + 1;
      }
      assert ws[..i] == ws;
      Shrink(l, j);
      dirty := dirty - {l};
    }

    method CleanAll(mem: Memory)
      requires Valid()
      modifies `occs, `dirty, `dirties
      ensures Valid() && dirty == {} && dirties == []
      ensures occs == Cleaned(mem, old(occs), old(dirty))
    {
      for i := 0 to |dirties|
        invariant Valid() && dirties == old(dirties) && dirty <= old(dirty)
        invariant forall k :: 0 <= k < i ==> dirties[k] !in dirty
        invariant occs == Cleaned(mem, old(occs), old(dirty) - dirty)
      {
        if dirties[i] in dirty {
          CleanedStep(mem, old(occs), old(dirty) - dirty, dirties[i]);
          assert old(dirty) - (dirty - {dirties[i]}) == old(dirty) - dirty + {dirties[i]};
          Clean(mem, dirties[i]);
        }
      }
      assert dirty == {};
      assert old(dirty) - dirty == old(dirty);
      dirties := [];
    }
  }

  lemma CleanedStep(mem: Memory, occs: map<Lit, seq<Watcher>>, done: set<Lit>, l: Lit)
    requires l in occs && l !in done
    ensures Cleaned(mem, occs, done + {l}) == Cleaned(mem, occs, done)[l := Kept(mem, Cleaned(mem, occs, done)[l])]
  {
  }

  function Cleaned(mem: Memory, occs: map<Lit, seq<Watcher>>, dirty: set<Lit>): map<Lit, seq<Watcher>> {
    map l | l in occs :: if l in dirty then Kept(mem, occs[l]) else occs[l]
  }

  /** After cleaning no watcher of a freed clause survives, and no other watcher is lost. */
  lemma CleanWatch(mem: Memory, occs: map<Lit, seq<Watcher>>, dirty: set<Lit>)
    requires WatchOK(mem, occs, dirty)
    requires forall cr :: cr in mem ==> mem[cr].mark <= 1
    ensures WatchOK(mem, Cleaned(mem, occs, dirty), {})
  {
    var occs' := Cleaned(mem, occs, dirty);
    forall l | l in occs' ensures ListOK(mem, occs'[l], l, l in {}) {
      assert ListOK(mem, occs[l], l, l in dirty);
      KeptSubset(mem, occs[l]);
      KeptDistinct(mem, occs[l]);
      forall i | 0 <= i < |occs'[l]| ensures WatcherOK(mem, occs'[l][i], l, false) {
        assert occs'[l][i] in occs[l];
        assert WatcherOK(mem, occs'[l][i], l, l in dirty);
      }
    }
    forall cr | Live(mem, cr) ensures Watched(mem[cr].lits, cr, occs') {
      assert Watched(mem[cr].lits, cr, occs);
      KeptIn(mem, occs[Neg(mem[cr].lits[0])], cr);
      KeptIn(mem, occs[Neg(mem[cr].lits[1])], cr);
    }
  }

  lemma CleanKeys(mem: Memory, occs: map<Lit, seq<Watcher>>, dirty: set<Lit>, n: nat)
    requires OccKeys(occs, n)
    ensures OccKeys(Cleaned(mem, occs, dirty), n)
  {
  }

  lemma KeptIn(mem: Memory, ws: seq<Watcher>, cr: CRef)
    requires In(ws, cr) && Live(mem, cr)
    ensures In(Kept(mem, ws), cr)
  {
    KeptSubset(mem, ws);
    var i :| 0 <= i < |ws| && ws[i].cref == cr;
    assert ws[i] in ws;
    assert ws[i] in Kept(mem, ws);
  }
}
