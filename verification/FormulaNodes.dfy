/** Formulas as nodes that may be shared: negation in place flips a node once for every path that
    leads to it, and copying undoes all sharing. */
module FormulaNodes {
  import opened BoolFormulas

  datatype Kind = Disjunct | Conjunct | Single

  // A node refers to its subformulas by their addresses.
  datatype Node = Node(t: Kind, l: int, v: seq<nat>)

  type Store = map<nat, Node>

  function Kids(n: Node): seq<nat> {
    if n.t == Single then [] else n.v
  }

  /** The formula at r has no dangling references, and no path in it has more than d nodes. */
  ghost predicate Deep(s: Store, r: nat, d: nat)
    decreases d
  {
    r in s && d > 0 && forall i :: 0 <= i < |Kids(s[r])| ==> Deep(s, Kids(s[r])[i], d - 1)
  }

  // The formula at r, written out as a tree.
  ghost function Tree(s: Store, r: nat, d: nat): Formula
    requires Deep(s, r, d)
    decreases d
  {
    match s[r].t
    case Single => Literal(s[r].l)
    case Conjunct => And(seq(|Kids(s[r])|, i requires 0 <= i < |Kids(s[r])| => Tree(s, Kids(s[r])[i], d - 1)))
    case Disjunct => Or(seq(|Kids(s[r])|, i requires 0 <= i < |Kids(s[r])| => Tree(s, Kids(s[r])[i], d - 1)))
  }

  // The number of paths from r to x.
  ghost function Paths(s: Store, r: nat, x: nat, d: nat): nat
    requires Deep(s, r, d)
    decreases d, 1, 0
  {
    (if r == x then 1 else 0) + PathsUpTo(s, r, |Kids(s[r])|, x, d)
  }

  // Those through the first k subformulas.
  ghost function PathsUpTo(s: Store, r: nat, k: nat, x: nat, d: nat): nat
    requires Deep(s, r, d) && k <= |Kids(s[r])|
    decreases d, 0, k
  {
    if k == 0 then 0 else PathsUpTo(s, r, k - 1, x, d) + Paths(s, Kids(s[r])[k - 1], x, d - 1)
  }

  function Flip(n: Node): Node {
    match n.t
    case Disjunct => n.(t := Conjunct)
    case Conjunct => n.(t := Disjunct)
    case Single => n.(l := -n.l)
  }

  function FlipTimes(n: Node, k: nat): Node {
    if k % 2 == 0 then n else Flip(n)
  }

  lemma FlipTwice(n: Node, j: nat, k: nat)
    ensures FlipTimes(FlipTimes(n, j), k) == FlipTimes(n, j + k)
    ensures Kids(FlipTimes(n, k)) == Kids(n)
  {
  }

  // The same nodes with the same subformulas.
  ghost predicate SameShape(s: Store, s': Store) {
    s'.Keys == s.Keys && forall x :: x in s ==> Kids(s'[x]) == Kids(s[x])
  }

  lemma {:induction false} SameDeep(s: Store, s': Store, r: nat, d: nat)
    requires SameShape(s, s') && Deep(s, r, d)
    ensures Deep(s', r, d)
    decreases d
  {
    forall i | 0 <= i < |Kids(s'[r])| ensures Deep(s', Kids(s'[r])[i], d - 1) {
      SameDeep(s, s', Kids(s[r])[i], d - 1);
    }
  }

  lemma {:induction false} SamePaths(s: Store, s': Store, r: nat, x: nat, d: nat)
    requires SameShape(s, s') && Deep(s, r, d) && Deep(s', r, d)
    ensures Paths(s', r, x, d) == Paths(s, r, x, d)
    decreases d, 1, 0
  {
    SamePathsUpTo(s, s', r, |Kids(s[r])|, x, d);
  }

  lemma {:induction false} SamePathsUpTo(s: Store, s': Store, r: nat, k: nat, x: nat, d: nat)
    requires SameShape(s, s') && Deep(s, r, d) && Deep(s', r, d) && k <= |Kids(s[r])|
    ensures PathsUpTo(s', r, k, x, d) == PathsUpTo(s, r, k, x, d)
    decreases d, 0, k
  {
    if k == 0 {
    } else {
      SamePathsUpTo(s, s', r, k - 1, x, d);
      SamePaths(s, s', Kids(s[r])[k - 1], x, d - 1);
    }
  }

  // ---------- larger stores ----------

  ghost predicate Extends(s: Store, s': Store) {
    forall x :: x in s ==> x in s' && s'[x] == s[x]
  }

  /** New nodes elsewhere change nothing about a formula. */
  lemma {:induction false} ExtendTree(s: Store, s': Store, r: nat, d: nat)
    requires Extends(s, s') && Deep(s, r, d)
    ensures Deep(s', r, d) && Tree(s', r, d) == Tree(s, r, d)
    decreases d
  {
    forall i | 0 <= i < |Kids(s[r])| ensures Deep(s', Kids(s[r])[i], d - 1)
        && Tree(s', Kids(s[r])[i], d - 1) == Tree(s, Kids(s[r])[i], d - 1)
    {
      ExtendTree(s, s', Kids(s[r])[i], d - 1);
    }
  }

  lemma {:induction false} ExtendPaths(s: Store, s': Store, r: nat, x: nat, d: nat)
    requires Extends(s, s') && Deep(s, r, d)
    ensures Deep(s', r, d) && Paths(s', r, x, d) == Paths(s, r, x, d)
    decreases d, 1, 0
  {
    ExtendTree(s, s', r, d);
    ExtendPathsUpTo(s, s', r, |Kids(s[r])|, x, d);
  }

  lemma {:induction false} ExtendPathsUpTo(s: Store, s': Store, r: nat, k: nat, x: nat, d: nat)
    requires Extends(s, s') && Deep(s, r, d) && Deep(s', r, d) && k <= |Kids(s[r])|
    ensures PathsUpTo(s', r, k, x, d) == PathsUpTo(s, r, k, x, d)
    decreases d, 0, k
  {
    if k == 0 {
    } else {
      ExtendPathsUpTo(s, s', r, k - 1, x, d);
      ExtendPaths(s, s', Kids(s[r])[k - 1], x, d - 1);
    }
  }

  ghost predicate AllDeep(s: Store, rs: seq<nat>, d: nat) {
    forall k :: 0 <= k < |rs| ==> Deep(s, rs[k], d)
  }

  // The number of paths to x from any of rs.
  ghost function SumPaths(s: Store, rs: seq<nat>, x: nat, d: nat): nat
    requires AllDeep(s, rs, d)
  {
    if rs == [] then 0 else SumPaths(s, rs[..|rs| - 1], x, d) + Paths(s, rs[|rs| - 1], x, d)
  }

  // At most one path to each address from lo up to hi, none to others.
  ghost predicate SingleWithin(s: Store, rs: seq<nat>, d: nat, lo: nat, hi: nat) {
    AllDeep(s, rs, d) && forall x: nat :: SumPaths(s, rs, x, d) <= if lo <= x < hi then 1 else 0
  }

  lemma SinglePush(s: Store, s': Store, rs: seq<nat>, t: nat, d: nat, lo: nat, mid: nat, hi: nat)
    requires Extends(s, s') && SingleWithin(s, rs, d, lo, mid) && lo <= mid <= hi && Deep(s', t, d)
    requires forall x: nat :: Paths(s', t, x, d) <= if mid <= x < hi then 1 else 0
    ensures SingleWithin(s', rs + [t], d, lo, hi)
  {
    forall k | 0 <= k < |rs| ensures Deep(s', rs[k], d) {
      ExtendTree(s, s', rs[k], d);
    }
    forall x: nat ensures SumPaths(s', rs + [t], x, d) <= if lo <= x < hi then 1 else 0 {
      ExtendSum(s, s', rs, x, d);
      SumPush(s', rs, t, x, d);
    }
  }

  lemma {:induction false} ExtendSum(s: Store, s': Store, rs: seq<nat>, x: nat, d: nat)
    requires Extends(s, s') && AllDeep(s, rs, d) && AllDeep(s', rs, d)
    ensures SumPaths(s', rs, x, d) == SumPaths(s, rs, x, d)
  {
    if rs == [] {
    } else {
      ExtendSum(s, s', rs[..|rs| - 1], x, d);
      ExtendPaths(s, s', rs[|rs| - 1], x, d);
    }
  }

  lemma SumPush(s: Store, rs: seq<nat>, t: nat, x: nat, d: nat)
    requires AllDeep(s, rs, d) && Deep(s, t, d)
    ensures AllDeep(s, rs + [t], d) && SumPaths(s, rs + [t], x, d) == SumPaths(s, rs, x, d) + Paths(s, t, x, d)
  {
    assert (rs + [t])[..|rs|] == rs;
  }

  lemma {:induction false} SumIsPaths(s: Store, c: nat, k: nat, x: nat, d: nat)
    requires Deep(s, c, d) && k <= |Kids(s[c])| && AllDeep(s, Kids(s[c]), d - 1)
    ensures PathsUpTo(s, c, k, x, d) == SumPaths(s, Kids(s[c])[..k], x, d - 1)
  {
    hide Paths, Tree;
    if k == 0 {
    } else {
      SumIsPaths(s, c, k - 1, x, d);
      SumPush(s, Kids(s[c])[..k - 1], Kids(s[c])[k - 1], x, d - 1);
      assert Kids(s[c])[..k] == Kids(s[c])[..k - 1] + [Kids(s[c])[k - 1]];
    }
  }

  // A new node over copies of the subformulas of r is a copy of r.
  lemma FinishCopy(s: Store, s1: Store, s2: Store, r: nat, c: nat, v: seq<nat>, d: nat)
    requires Deep(s, r, d) && s[r].t != Single && |v| == |Kids(s[r])| && c !in s1 && s2 == s1[c := Node(s[r].t, 0, v)]
    requires forall k :: 0 <= k < |v| ==>
        Deep(s1, v[k], d - 1) && Tree(s1, v[k], d - 1) == Tree(s, Kids(s[r])[k], d - 1)
    ensures Deep(s2, c, d) && Tree(s2, c, d) == Tree(s, r, d) && AllDeep(s1, v, d - 1)
    ensures forall x :: Paths(s2, c, x, d) == (if c == x then 1 else 0) + SumPaths(s1, v, x, d - 1)
  {
    assert Extends(s1, s2);
    forall k | 0 <= k < |v| ensures Deep(s2, v[k], d - 1) && Tree(s2, v[k], d - 1) == Tree(s, Kids(s[r])[k], d - 1) {
      ExtendTree(s1, s2, v[k], d - 1);
    }
    assert Deep(s2, c, d);
    assert v[..|v|] == v;
    forall x ensures Paths(s2, c, x, d) == (if c == x then 1 else 0) + SumPaths(s1, v, x, d - 1) {
      SumIsPaths(s2, c, |v|, x, d);
      ExtendSum(s1, s2, v, x, d - 1);
    }
  }

  // ---------- negation and copying ----------

  // s' is s with every node flipped once for the paths from r itself and its first k subformulas.
  ghost predicate NegatedUpTo(s: Store, s': Store, r: nat, k: nat, d: nat)
    requires Deep(s, r, d) && k <= |Kids(s[r])|
  {
    && SameShape(s, s')
    && forall x :: x in s' ==> s'[x] == FlipTimes(s[x], (if r == x then 1 else 0) + PathsUpTo(s, r, k, x, d))
  }

  lemma NegEnds(s: Store, r: nat, d: nat)
    requires Deep(s, r, d)
    ensures Kids(Flip(s[r])) == Kids(s[r]) && NegatedUpTo(s, s[r := Flip(s[r])], r, 0, d)
  {
  }

  lemma NegDone(s: Store, s': Store, r: nat, d: nat)
    requires Deep(s, r, d) && NegatedUpTo(s, s', r, |Kids(s[r])|, d)
    ensures SameShape(s, s') && forall x :: x in s' ==> s'[x] == FlipTimes(s[x], Paths(s, r, x, d))
  {
  }

  lemma KidDeep(s: Store, s': Store, r: nat, i: nat, d: nat)
    requires Deep(s, r, d) && i < |Kids(s[r])| && NegatedUpTo(s, s', r, i, d)
    ensures Deep(s', Kids(s[r])[i], d - 1)
  {
    SameDeep(s, s', Kids(s[r])[i], d - 1);
  }

  lemma NegStep(s: Store, s1: Store, s2: Store, r: nat, i: nat, d: nat)
    requires Deep(s, r, d) && i < |Kids(s[r])| && NegatedUpTo(s, s1, r, i, d) && SameShape(s1, s2)
    requires Deep(s1, Kids(s[r])[i], d - 1)
    requires forall x :: x in s2 ==> s2[x] == FlipTimes(s1[x], Paths(s1, Kids(s[r])[i], x, d - 1))
    ensures NegatedUpTo(s, s2, r, i + 1, d)
  {
    hide Paths, PathsUpTo, FlipTimes;
    forall x | x in s2 ensures s2[x] == FlipTimes(s[x], (if r == x then 1 else 0) + PathsUpTo(s, r, i + 1, x, d)) {
      NegStepAt(s, s1, s2, r, i, x, d);
    }
  }

  lemma NegStepAt(s: Store, s1: Store, s2: Store, r: nat, i: nat, x: nat, d: nat)
    requires Deep(s, r, d) && i < |Kids(s[r])| && NegatedUpTo(s, s1, r, i, d) && x in s1 && x in s2
    requires Deep(s1, Kids(s[r])[i], d - 1) && s2[x] == FlipTimes(s1[x], Paths(s1, Kids(s[r])[i], x, d - 1))
    ensures s2[x] == FlipTimes(s[x], (if r == x then 1 else 0) + PathsUpTo(s, r, i + 1, x, d))
  {
    SamePaths(s, s1, Kids(s[r])[i], x, d - 1);
    FlipTwice(s[x], (if r == x then 1 else 0) + PathsUpTo(s, r, i, x, d), Paths(s, Kids(s[r])[i], x, d - 1));
  }

  class FormulaStore {
    var nodes: Store
    var next: nat      // addresses from here on are free

    ghost predicate Valid()
      reads this
    {
      forall x :: x in nodes ==> x < next
    }

    constructor ()
      ensures Valid() && nodes == map[]
    {
      nodes, next := map[], 0;
    }

    /** Negation in place: every node is flipped once for each path from r. */
    method Neg(r: nat, ghost d: nat)
      requires Deep(nodes, r, d)
      modifies `nodes
      ensures SameShape(old(nodes), nodes)
      ensures forall x :: x in nodes ==> nodes[x] == FlipTimes(old(nodes)[x], Paths(old(nodes), r, x, d))
      decreases d
    {
      hide Paths, PathsUpTo, FlipTimes, NegatedUpTo, Flip;
      ghost var s := nodes;
      NegEnds(s, r, d);
      nodes := nodes[r := Flip(nodes[r])];
      var kids := Kids(nodes[r]);
      for i := 0 to |kids|
        invariant NegatedUpTo(s, nodes, r, i, d)
      {
        ghost var s1 := nodes;
        KidDeep(s, s1, r, i, d);
        Neg(kids[i], d - 1);
        NegStep(s, s1, nodes, r, i, d);
      }
      NegDone(s, nodes, r, d);
    }

    /** A copy that shares nothing: every node of it is new and reached by a single path. */
    method Copy(r: nat, ghost d: nat) returns (c: nat)
      requires Valid() && Deep(nodes, r, d)
      modifies this
      ensures Valid() && old(next) <= c < next && Extends(old(nodes), nodes)
      ensures forall x :: x in nodes && x !in old(nodes) ==> x >= old(next)
      ensures Deep(nodes, c, d) && Tree(nodes, c, d) == Tree(old(nodes), r, d)
      ensures forall x: nat :: Paths(nodes, c, x, d) <= if old(next) <= x < next then 1 else 0
      decreases d
    {
      ghost var s := nodes;
      c := next;
      next := next + 1;
      if nodes[r].t == Single {
        nodes := nodes[c := nodes[r]];
        assert Deep(nodes, c, d);
        return;
      }
      var t, kids := nodes[r].t, Kids(nodes[r]);
      var v: seq<nat> := seq(|kids|, _ => 0);
      for i := 0 to |kids|
        invariant Valid() && old(next) == c < next && c !in nodes && Extends(s, nodes) && |v| == |kids|
        invariant forall x :: x in nodes && x !in s ==> x >= c
        invariant forall k :: 0 <= k < i ==>
            Deep(nodes, v[k], d - 1) && Tree(nodes, v[k], d - 1) == Tree(s, Kids(s[r])[k], d - 1)
        invariant SingleWithin(nodes, v[..i], d - 1, c + 1, next)
      {
        ghost var s1, w, mid := nodes, v[..i], next;
        assert Deep(s, Kids(s[r])[i], d - 1);
        ExtendTree(s, s1, kids[i], d - 1);
        var u := Copy(kids[i], d - 1);
        forall k | 0 <= k < i ensures Deep(nodes, v[k], d - 1)
            && Tree(nodes, v[k], d - 1) == Tree(s, Kids(s[r])[k], d - 1)
        {
          ExtendTree(s1, nodes, v[k], d - 1);
        }
        SinglePush(s1, nodes, w, u, d - 1, c + 1, mid, next);
        v := v[i := u];
        assert v[..i + 1] == w + [u];
      }
      ghost var s2 := nodes;
      nodes := nodes[c := Node(t, 0, v)];
      assert v[..|v|] == v;
      FinishCopy(s, s2, nodes, r, c, v, d);
    }
  }

  // ---------- when negation negates ----------

  function Dual(f: Formula): Formula {
    match f
    case Literal(l) => Literal(-l)
    case And(fs) => Or(seq(|fs|, i requires 0 <= i < |fs| => Dual(fs[i])))
    case Or(fs) => And(seq(|fs|, i requires 0 <= i < |fs| => Dual(fs[i])))
  }

  ghost predicate NonZero(f: Formula) {
    match f
    case Literal(l) => l != 0
    case And(fs) => forall i :: 0 <= i < |fs| ==> NonZero(fs[i])
    case Or(fs) => forall i :: 0 <= i < |fs| ==> NonZero(fs[i])
  }

  /** De Morgan: the dual is the negation. */
  lemma {:induction false} DualNegates(A: World, f: Formula)
    requires NonZero(f)
    ensures Eval(A, Dual(f)) <==> !Eval(A, f)
    decreases f
  {
    if f.Literal? {
    } else {
      forall i | 0 <= i < |f.fs| ensures Eval(A, Dual(f).fs[i]) <==> !Eval(A, f.fs[i]) {
        DualNegates(A, f.fs[i]);
      }
    }
  }

  // Some nodes have been flipped, the others are as they were.
  ghost predicate Flipped(s: Store, s': Store) {
    SameShape(s, s') && forall x :: x in s ==> s'[x] == s[x] || s'[x] == Flip(s[x])
  }

  // Every node on a path from r has been flipped.
  ghost predicate AllFlipped(s: Store, s': Store, r: nat, d: nat)
    requires Deep(s, r, d) && SameShape(s, s')
  {
    forall x :: x in s && Paths(s, r, x, d) > 0 ==> s'[x] == Flip(s[x])
  }

  lemma {:induction false} KidPaths(s: Store, r: nat, k: nat, i: nat, x: nat, d: nat)
    requires Deep(s, r, d) && i < k <= |Kids(s[r])|
    ensures PathsUpTo(s, r, k, x, d) >= Paths(s, Kids(s[r])[i], x, d - 1)
    decreases k
  {
    if i >= k - 1 {
    } else {
      KidPaths(s, r, k - 1, i, x, d);
    }
  }

  lemma {:induction false} PathsThrough(s: Store, r: nat, k: nat, x: nat, d: nat) returns (i: nat)
    requires Deep(s, r, d) && k <= |Kids(s[r])| && PathsUpTo(s, r, k, x, d) > 0
    ensures i < k && Paths(s, Kids(s[r])[i], x, d - 1) > 0
    decreases k
  {
    if Paths(s, Kids(s[r])[k - 1], x, d - 1) > 0 {
      i := k - 1;
    } else {
      i := PathsThrough(s, r, k - 1, x, d);
    }
  }

  lemma FlippedKids(s: Store, s': Store, r: nat, d: nat)
    requires Deep(s, r, d) && SameShape(s, s')
    ensures AllFlipped(s, s', r, d) <==>
              s'[r] == Flip(s[r]) && forall i :: 0 <= i < |Kids(s[r])| ==> AllFlipped(s, s', Kids(s[r])[i], d - 1)
  {
    if AllFlipped(s, s', r, d) {
      assert Paths(s, r, r, d) > 0;
      forall i, x | 0 <= i < |Kids(s[r])| && x in s && Paths(s, Kids(s[r])[i], x, d - 1) > 0
          ensures s'[x] == Flip(s[x])
      {
        KidPaths(s, r, |Kids(s[r])|, i, x, d);
        assert Paths(s, r, x, d) > 0;
      }
    }
    if s'[r] == Flip(s[r]) && forall i :: 0 <= i < |Kids(s[r])| ==> AllFlipped(s, s', Kids(s[r])[i], d - 1) {
      forall x | x in s && Paths(s, r, x, d) > 0 ensures s'[x] == Flip(s[x]) {
        if x != r {
          var i := PathsThrough(s, r, |Kids(s[r])|, x, d);
          assert AllFlipped(s, s', Kids(s[r])[i], d - 1);
        }
      }
    }
  }

  /** The tree at r has become its dual exactly when every node on a path from r has been flipped. */
  lemma {:induction false} DualWhenFlipped(s: Store, s': Store, r: nat, d: nat)
    requires Deep(s, r, d) && Flipped(s, s') && NonZero(Tree(s, r, d))
    ensures Deep(s', r, d)
    ensures Tree(s', r, d) == Dual(Tree(s, r, d)) <==> AllFlipped(s, s', r, d)
    decreases d
  {
    SameDeep(s, s', r, d);
    var kids := Kids(s[r]);
    FlippedKids(s, s', r, d);
    var f, g := Tree(s, r, d), Tree(s', r, d);
    if s[r].t == Single {
    } else {
      forall i | 0 <= i < |kids|
        ensures Deep(s', kids[i], d - 1)
        ensures Tree(s', kids[i], d - 1) == Dual(Tree(s, kids[i], d - 1)) <==> AllFlipped(s, s', kids[i], d - 1)
        ensures f.fs[i] == Tree(s, kids[i], d - 1) && g.fs[i] == Tree(s', kids[i], d - 1)
      {
        assert f.fs[i] == Tree(s, kids[i], d - 1);
        DualWhenFlipped(s, s', kids[i], d - 1);
      }
      DualParts(f, g);
    }
  }

  lemma DualParts(f: Formula, g: Formula)
    requires !f.Literal? && !g.Literal? && |g.fs| == |f.fs|
    ensures g == Dual(f) <==> g.And? == f.Or? && forall i :: 0 <= i < |f.fs| ==> g.fs[i] == Dual(f.fs[i])
  {
    var h := Dual(f);
    if g.And? == f.Or? && forall i :: 0 <= i < |f.fs| ==> g.fs[i] == Dual(f.fs[i]) {
      assert g.fs == h.fs;
    }
    if g == h {
      forall i | 0 <= i < |f.fs| ensures g.fs[i] == Dual(f.fs[i]) {
        assert h.fs[i] == Dual(f.fs[i]);
      }
    }
  }

  /** What Neg leaves is the dual formula if and only if every node is reached by an odd number of
      paths. */
  lemma NegIsDual(s: Store, s': Store, r: nat, d: nat)
    requires Deep(s, r, d) && SameShape(s, s') && NonZero(Tree(s, r, d))
    requires forall x :: x in s' ==> s'[x] == FlipTimes(s[x], Paths(s, r, x, d))
    requires forall x :: x in s && s[x].t == Single ==> s[x].l != 0
    ensures Deep(s', r, d)
    ensures Tree(s', r, d) == Dual(Tree(s, r, d)) <==>
              forall x :: x in s && Paths(s, r, x, d) > 0 ==> Paths(s, r, x, d) % 2 == 1
  {
    DualWhenFlipped(s, s', r, d);
    forall x | x in s ensures s'[x] == Flip(s[x]) <==> Paths(s, r, x, d) % 2 == 1 {
      assert s'[x] == FlipTimes(s[x], Paths(s, r, x, d));
      assert Flip(s[x]) != s[x];
    }
  }

  // A conjunction of a node with itself.
  ghost function SharedStore(l: int): (s: Store)
    ensures Deep(s, 0, 2)
  {
    var s: Store := map[0 := Node(Conjunct, 0, [1, 1]), 1 := Node(Single, l, [])];
    assert Kids(s[0]) == [1, 1] && Deep(s, 1, 1);
    s
  }

  lemma SharedDeep(l: int)
    ensures Paths(SharedStore(l), 0, 0, 2) == 1 && Paths(SharedStore(l), 0, 1, 2) == 2
    ensures Tree(SharedStore(l), 0, 2) == And([Literal(l), Literal(l)])
  {
    var s := SharedStore(l);
    assert Kids(s[0]) == [1, 1];
    assert Deep(s, 1, 1);
    forall x | x == 0 || x == 1 ensures PathsUpTo(s, 0, 2, x, 2) == 2 * x {
      assert Paths(s, 1, x, 1) == x;
      assert PathsUpTo(s, 0, 1, x, 2) == x;
    }
    assert Tree(s, 0, 2).fs == [Literal(l), Literal(l)];
  }

  /** Negated in place, a conjunction of a node with itself is not the negation: what Neg leaves is
      a disjunction that has the value of the original everywhere. */
  lemma SharedNotNegated(l: int, s': Store)
    requires l != 0 && SameShape(SharedStore(l), s')
    requires forall x :: x in s' ==> s'[x] == FlipTimes(SharedStore(l)[x], Paths(SharedStore(l), 0, x, 2))
    ensures Deep(s', 0, 2) && Tree(s', 0, 2) == Or([Literal(l), Literal(l)])
    ensures Tree(s', 0, 2) != Dual(Tree(SharedStore(l), 0, 2))
    ensures forall A :: Eval(A, Tree(s', 0, 2)) <==> Eval(A, Tree(SharedStore(l), 0, 2))
  {
    hide Paths, PathsUpTo;
    var s := SharedStore(l);
    SharedDeep(l);
    SameDeep(s, s', 0, 2);
    assert Kids(s'[0]) == Kids(s[0]) == [1, 1];
    assert Deep(s', Kids(s'[0])[0], 1) && Deep(s', Kids(s'[0])[1], 1);
    assert s'[0] == Flip(s[0]) && s'[1] == s[1];
    assert Tree(s', 0, 2).fs == [Literal(l), Literal(l)];
    assert Dual(And([Literal(l), Literal(l)])).fs[0] == Literal(-l);
    forall A ensures Eval(A, Or([Literal(l), Literal(l)])) <==> Eval(A, And([Literal(l), Literal(l)])) {
      assert Eval(A, Literal(l)) <==> Eval(A, And([Literal(l), Literal(l)]).fs[0]);
    }
  }
}
