/** The learner of boolean functions from membership and equivalence queries, in its four modes. */
module CdnfLearner {
  import opened Basics
  import opened BitVectors
  import opened BoolFormulas
  import opened CdnfFormulas
  import opened CdnfTheory

  datatype Mode = Cdnf | CdnfPlus | CdnfPlusPlus | CdnfPlus3

  // The modes that never add a variable within a run.
  predicate FixedVars(mode: Mode) {
    mode == Cdnf || mode == CdnfPlus
  }

  datatype Answer = Equal | Counterexample(v: BitVector)

  // A learnt formula, a conflict at the given number of variables, or out of allowed queries.
  datatype Outcome = Learnt(f: Formula) | Conflict | OutOfQueries

  function HypothesesOf(bases: seq<Basis>): seq<Disjunction> {
    seq(|bases|, i requires 0 <= i < |bases| => if bases[i].H.Terms? then bases[i].H.ms else [])
  }

  function Conjecture(bases: seq<Basis>): Formula {
    CdnfFormula(HypothesesOf(bases))
  }

  // The conjecture evaluates as the hypotheses do.
  lemma ConjectureMeaning(bases: seq<Basis>, n: nat, v: BitVector)
    requires BasesOK(bases, n) && IsAssignment(v, n)
    ensures Eval(WorldOf(v), Conjecture(bases)) <==> forall i :: 0 <= i < |bases| ==> DnfTrue(bases[i].H.ms, v)
  {
    var hs := HypothesesOf(bases);
    forall i | 0 <= i < |hs| ensures AllOver(hs[i], n) && hs[i] == bases[i].H.ms {
      TermsOver(bases[i], n);
    }
    CdnfMeaning(hs, v);
  }

  lemma ExtendedDiffer(a: BitVector, w: BitVector, x: bool, y: bool)
    requires |a| == |w| && a != w
    ensures a + [x] != w + [y]
  {
    assert (a + [x])[..|a|] == a && (w + [y])[..|w|] == w;
  }

  // The membership queries of a walk over distance d with n variables, at most.
  ghost function WalkQueries(d: nat, n: nat): nat {
    (d + 1) * n
  }

  lemma WalkRound(d: nat, n: nat)
    ensures WalkQueries(d + 1, n) == WalkQueries(d, n) + n && WalkQueries(d, n) >= n
  {
    assert (d + 1) * n == d * n + n;
    assert (d + 2) * n == (d + 1) * n + n;
  }

  // The equivalence queries of attempts with n, ..., m variables, at most.
  ghost function RetryBound(n: nat, m: nat): nat {
    (if m <= n then 0 else RetryBound(n, m - 1)) + AnyTeacherBound(m)
  }

  // Those of attempts with fewer than m variables.
  ghost function EarlierBound(n: nat, m: nat): nat {
    if m <= n then 0 else RetryBound(n, m - 1)
  }

  lemma {:induction false} RetryMono(n: nat, m: nat, N: nat)
    ensures n <= m <= N ==> RetryBound(n, m) <= RetryBound(n, N) - (N - m)
  {
    if N <= m {
    } else {
      RetryMono(n, m, N - 1);
    }
  }

  // A basis with one more support and its term.
  function WithSupport(B: Basis, w: BitVector): Basis {
    if |w| == |B.a| && B.H.Terms? then B.(T := B.T + [w], H := Terms(B.H.ms + [Term(w, B.a)])) else B
  }

  // The bases with the k-th of ws as one more support of basis idx[k].
  function WithSupports(bs: seq<Basis>, idx: seq<nat>, ws: seq<BitVector>): (r: seq<Basis>)
    ensures |r| == |bs|
  {
    if ws == [] then bs
    else
      var prev, k := WithSupports(bs, idx, ws[..|ws| - 1]), |ws| - 1;
      if k < |idx| && idx[k] < |prev| then prev[idx[k] := WithSupport(prev[idx[k]], ws[k])] else prev
  }

  lemma WithSupportsNext(bs: seq<Basis>, idx: seq<nat>, ws: seq<BitVector>, w: BitVector)
    requires |ws| < |idx| && idx[|ws|] < |bs|
    ensures var prev, i := WithSupports(bs, idx, ws), idx[|ws|];
            WithSupports(bs, idx, ws + [w]) == prev[i := WithSupport(prev[i], w)]
  {
    hide WithSupport;
    assert (ws + [w])[..|ws|] == ws;
  }

  // The queries of one round of refinement: one for each point in mode CdnfPlusPlus, and one for
  // each support.
  function PointQueries(mode: Mode): nat {
    if mode == CdnfPlusPlus then 1 else 0
  }

  // Those of the first k bases.
  ghost function RefineQueries(bs: seq<Basis>, mode: Mode, k: nat): nat
    requires k <= |bs|
  {
    if k == 0 then 0 else RefineQueries(bs, mode, k - 1) + PointQueries(mode) + |bs[k - 1].T|
  }

  lemma RefineQueriesNext(bs: seq<Basis>, mode: Mode, k: nat)
    requires k < |bs|
    ensures RefineQueries(bs, mode, k + 1) == RefineQueries(bs, mode, k) + PointQueries(mode) + |bs[k].T|
  {
  }

  class Learner {
    // The teacher: its answers may depend on everything asked before, that is, on the time.
    const membership: (nat, BitVector) -> bool
    const comembership: (nat, BitVector) -> bool
    const equivalence: (nat, nat, Formula) -> Answer

    var time: nat       // questions asked so far
    var asked: nat      // equivalence queries among them
    var numVars: nat
    var bases: seq<Basis>

    constructor (m: (nat, BitVector) -> bool, c: (nat, BitVector) -> bool, e: (nat, nat, Formula) -> Answer)
      ensures membership == m && comembership == c && equivalence == e && asked == 0 && bases == []
    {
      membership, comembership, equivalence := m, c, e;
      time, asked, numVars, bases := 0, 0, 0, [];
    }

    // Counterexamples have the right length and leave bit 0 alone.
    ghost predicate TeacherOK() {
      forall t, n, f :: equivalence(t, n, f).Counterexample? ==> IsAssignment(equivalence(t, n, f).v, n)
    }

    // Membership queries are answered by f.
    ghost predicate Answers(f: BitVector -> bool, n: nat) {
      forall t, v :: IsAssignment(v, n) ==> membership(t, v) == f(v)
    }

    // g evaluates as f does.
    ghost predicate Meets(f: BitVector -> bool, g: Formula, n: nat) {
      forall v :: IsAssignment(v, n) ==> (Eval(WorldOf(v), g) <==> f(v))
    }

    /** All answers are those of a teacher of f over n variables. */
    ghost predicate Consistent(f: BitVector -> bool, n: nat) {
      && Answers(f, n)
      && forall t, g ::
           match equivalence(t, n, g)
           case Equal => Meets(f, g, n)
           case Counterexample(v) => IsAssignment(v, n) && !(Eval(WorldOf(v), g) <==> f(v))
    }

    // The support w of a point extended by b: its new bit is b unless the membership query at time
    // t refuses that.
    ghost predicate SupportExtends(w: BitVector, w0: BitVector, b: bool, t: nat) {
      w == w0 + [if membership(t, w0 + [b]) then b else !b]
    }

    // The new bit of a point: false, or in mode CdnfPlusPlus what the second oracle says at time t.
    ghost predicate PointExtends(a: BitVector, a0: BitVector, mode: Mode, t: nat) {
      a == a0 + [mode == CdnfPlusPlus && !comembership(t, a0 + [false])]
    }

    // Basis B is B0 with one more variable, by queries from time t on.
    ghost predicate BasisExtends(B: Basis, B0: Basis, mode: Mode, t: nat) {
      && PointExtends(B.a, B0.a, mode, t) && |B.T| == |B0.T|
      && forall j :: 0 <= j < |B.T| ==>
          SupportExtends(B.T[j], B0.T[j], B.a[|B.a| - 1], t + PointQueries(mode) + j)
    }

    /** bs is bs0 with one more variable, by one round of queries that ended at time end; a last basis
        without supports is gone. */
    ghost predicate RefinedFrom(bs: seq<Basis>, bs0: seq<Basis>, mode: Mode, end: nat) {
      && RefineQueries(bs0, mode, |bs0|) <= end
      && |bs0| - 1 <= |bs| <= |bs0| && (|bs| < |bs0| ==> bs0[|bs|].T == [])
      && forall i :: 0 <= i < |bs| ==>
          bs[i].T != [] && BasisExtends(bs[i], bs0[i], mode, end - RefineQueries(bs0, mode, |bs0|)
              + RefineQueries(bs0, mode, i))
    }

    // v was asked about between two times, with this answer.
    ghost predicate Asked(v: BitVector, from: nat, to: nat, answer: bool) {
      exists t :: from <= t < to && membership(t, v) == answer
    }

    lemma ExtendedAt(bs: seq<Basis>, bs0: seq<Basis>, mode: Mode, end: nat, i: nat) returns (t: nat)
      requires RefinedFrom(bs, bs0, mode, end) && i < |bs|
      ensures i < |bs0| && BasisExtends(bs[i], bs0[i], mode, t)
    {
      hide BasisExtends;
      t := end - RefineQueries(bs0, mode, |bs0|) + RefineQueries(bs0, mode, i);
    }

    lemma PointsStayApart(B1: Basis, B2: Basis, C1: Basis, C2: Basis, n: nat, mode: Mode, t1: nat, t2: nat)
      requires BasisOK(B1, n) && BasisOK(B2, n) && B1.a != B2.a
      requires BasisExtends(C1, B1, mode, t1) && BasisExtends(C2, B2, mode, t2)
      ensures C1.a != C2.a
    {
      ExtendedDiffer(B1.a, B2.a, C1.a[n + 1], C2.a[n + 1]);
    }

    lemma SupportsStayApart(B: Basis, C: Basis, n: nat, mode: Mode, t: nat)
      requires BasisOK(B, n) && Different(B.T) && BasisExtends(C, B, mode, t)
      ensures Different(C.T)
    {
      forall j, k | 0 <= j < k < |C.T| ensures C.T[j] != C.T[k] {
        var b := C.a[|C.a| - 1];
        assert SupportExtends(C.T[j], B.T[j], b, t + PointQueries(mode) + j);
        assert SupportExtends(C.T[k], B.T[k], b, t + PointQueries(mode) + k);
        ExtendedDiffer(B.T[j], B.T[k], C.T[j][n + 1], C.T[k][n + 1]);
      }
    }

    /** One more variable keeps different points and different supports apart. */
    lemma RefinedSeparated(bs: seq<Basis>, bs0: seq<Basis>, n: nat, mode: Mode, end: nat)
      requires RefinedFrom(bs, bs0, mode, end) && Separated(bs0) && BasesOK(bs0, n)
      ensures Separated(bs)
    {
      hide RefinedFrom, BasisExtends, BasisOK, Different;
      forall i, j | 0 <= i < j < |bs| ensures bs[i].a != bs[j].a {
        var t1 := ExtendedAt(bs, bs0, mode, end, i);
        var t2 := ExtendedAt(bs, bs0, mode, end, j);
        PointsStayApart(bs0[i], bs0[j], bs[i], bs[j], n, mode, t1, t2);
      }
      forall i | 0 <= i < |bs| ensures Different(bs[i].T) {
        var t := ExtendedAt(bs, bs0, mode, end, i);
        SupportsStayApart(bs0[i], bs[i], n, mode, t);
      }
    }

    method AskMembership(v: BitVector) returns (r: bool)
      modifies `time
      ensures r == membership(old(time), v) && time == old(time) + 1
    {
      r := membership(time, v);
      time := time + 1;
    }

    method AskEquivalence(g: Formula) returns (r: Answer)
      modifies `time, `asked
      ensures asked == old(asked) + 1 && time == old(time) + 1 && r == equivalence(old(time), numVars, g)
    {
      r := equivalence(time, numVars, g);
      time, asked := time + 1, asked + 1;
    }

    // Below i all flips towards a have been refused.
    ghost predicate Refused(f: BitVector -> bool, v: BitVector, a: BitVector, i: nat) {
      |v| == |a| && forall k :: i < k < |v| && v[k] != a[k] ==> !f(v[k := a[k]])
    }

    // Between two times v was accepted, unless it is the start s, and its flips towards a above i refused.
    ghost predicate Tried(v: BitVector, s: BitVector, a: BitVector, i: nat, from: nat, to: nat) {
      && |v| == |a| && from <= to && (v == s || Asked(v, from, to, true))
      && forall k :: i < k < |v| && v[k] != a[k] ==> Asked(v[k := a[k]], from, to, false)
    }

    lemma StartTried(v: BitVector, a: BitVector, t: nat)
      requires |v| == |a| > 0
      ensures Tried(v, v, a, |v| - 1, t, t)
    {
    }

    lemma TriedAgrees(v: BitVector, s: BitVector, a: BitVector, i: nat, from: nat, to: nat)
      requires Tried(v, s, a, i, from, to) && 0 < i < |v| && v[i] == a[i]
      ensures Tried(v, s, a, i - 1, from, to)
    {
    }

    lemma TriedFlip(v: BitVector, s: BitVector, a: BitVector, i: nat, from: nat, to: nat)
      requires Tried(v, s, a, i, from, to) && 0 < i < |v| && v[i] != a[i]
      ensures if membership(to, v[i := a[i]]) then Tried(v[i := a[i]], s, a, |v| - 1, from, to + 1)
              else Tried(v, s, a, i - 1, from, to + 1)
    {
      hide Asked;
      var u := v[i := a[i]];
      AskedNow(u, from, to);
      AskedLater(v, from, to, true);
      forall k | i < k < |v| && v[k] != a[k] ensures Asked(v[k := a[k]], from, to + 1, false) {
        AskedLater(v[k := a[k]], from, to, false);
      }
    }

    lemma AskedNow(v: BitVector, from: nat, to: nat)
      requires from <= to
      ensures Asked(v, from, to + 1, membership(to, v))
    {
    }

    lemma AskedLater(v: BitVector, from: nat, to: nat, answer: bool)
      ensures Asked(v, from, to, answer) ==> Asked(v, from, to + 1, answer)
    {
    }

    /** Walks from v towards a through members; stops where every single flip has been refused.  It
        asks at most once for each variable after every accepted flip and once more for each. */
    method Walk(v: array<bool>, a: BitVector, ghost f: BitVector -> bool)
      requires v.Length == |a| > 0 && v[0] == a[0] == false
      modifies v, `time
      ensures Between(v[..], old(v[..]), a)
      ensures Answers(f, |a| - 1) && f(old(v[..])) ==> f(v[..])
      ensures Answers(f, |a| - 1) ==> LocalMin(f, v[..], a)
      ensures Tried(v[..], old(v[..]), a, 0, old(time), time)
      ensures time <= old(time) + WalkQueries(Distance(old(v[..]), a), |a| - 1)
    {
      hide WalkQueries, Tried;
      ghost var s, n := v[..], |a| - 1;
      StartTried(s, a, time);
      ghost var good := Answers(f, n);
      var i := v.Length - 1;
      while i > 0
        invariant 0 <= i < v.Length && Between(v[..], s, a)
        invariant good && f(s) ==> f(v[..])
        invariant good ==> Refused(f, v[..], a, i)
        invariant Tried(v[..], s, a, i, old(time), time)
        invariant time + i + WalkQueries(Distance(v[..], a), n) <= old(time) + n + WalkQueries(Distance(s, a), n)
        decreases Distance(v[..], a), i
      {
        ghost var w := v[..];
        if v[i] == a[i] {
          TriedAgrees(w, s, a, i, old(time), time);
        } else {
          TriedFlip(w, s, a, i, old(time), time);
          var b := v[i];
          v[i] := !b;
          ghost var u := w[i := a[i]];
          assert v[..] == u;
          DistanceFlip(w, a, i);
          var member := AskMembership(v[..]);
          assert IsAssignment(v[..], n);
          if member {
            i := v.Length;
            WalkRound(Distance(u, a), n);
            assert v[..] == u;
          } else {
            v[i] := b;
            assert v[..] == w;
          }
        }
        i := i - 1;
      }
      WalkRound(Distance(v[..], a), n);
    }

    // ---------- bases ----------

    method AddBasis(v: BitVector)
      modifies `bases
      ensures bases == old(bases) + [Basis(v, [], Terms([]))]
    {
      bases := bases + [Basis(v, [], Terms([]))];
    }

    method GetConjecture() returns (g: Formula)
      requires BasesOK(bases, numVars)
      ensures g == Conjecture(bases)
    {
      var hs: seq<Disjunction> := seq(|bases|, _ => []);
      for i := 0 to |bases|
        invariant |hs| == |bases| && forall k :: 0 <= k < i ==> hs[k] == HypothesesOf(bases)[k]
      {
        hs := hs[i := bases[i].H.ms];
      }
      g := CdnfToBoolFormula(hs);
    }

    // The bases whose hypothesis v falsifies, in increasing order.
    method GetIndicesToModify(v: BitVector) returns (idx: seq<nat>)
      requires BasesOK(bases, numVars) && IsAssignment(v, numVars)
      ensures forall k :: 0 <= k < |idx| ==> idx[k] < |bases| && !DnfTrue(bases[idx[k]].H.ms, v)
      ensures forall i :: 0 <= i < |bases| && !DnfTrue(bases[i].H.ms, v) ==> i in idx
      ensures forall k, l :: 0 <= k < l < |idx| ==> idx[k] < idx[l]
    {
      idx := [];
      for i := 0 to |bases|
        invariant forall k :: 0 <= k < |idx| ==> idx[k] < i && !DnfTrue(bases[idx[k]].H.ms, v)
        invariant forall k :: 0 <= k < i && !DnfTrue(bases[k].H.ms, v) ==> k in idx
        invariant forall k, l :: 0 <= k < l < |idx| ==> idx[k] < idx[l]
      {
        TermsOver(bases[i], numVars);
        var b := EvalMDnf(bases[i].H.ms, v);
        if !b {
          idx := idx + [i];
        }
      }
    }

    // Rebuilds the terms of all bases from their supports.
    method RebuildDisjunctions(ghost n: nat)
      requires forall i :: 0 <= i < |bases| ==> PointsOK(bases[i].a, bases[i].T, n) && bases[i].H == Freed
      modifies `bases
      ensures |bases| == |old(bases)|
      ensures forall i :: 0 <= i < |bases| ==>
          BasisOK(bases[i], n) && bases[i].a == old(bases)[i].a && bases[i].T == old(bases)[i].T
    {
      ghost var bases0 := bases;
      for i := 0 to |bases|
        invariant |bases| == |bases0|
        invariant forall k :: i <= k < |bases| ==> bases[k] == bases0[k]
        invariant forall k :: 0 <= k < i ==>
            BasisOK(bases[k], n) && bases[k].a == bases0[k].a && bases[k].T == bases0[k].T
      {
        assert bases[i].H == Freed;
        var h := RebuildTerms(bases[i].a, bases[i].T, n);
        bases := bases[i := bases[i].(H := Terms(h))];
      }
    }

    method RebuildTerms(a: BitVector, T: seq<BitVector>, ghost n: nat) returns (h: Disjunction)
      requires PointsOK(a, T, n)
      ensures h == TermsOf(T, a)
    {
      h := [];
      for j := 0 to |T|
        invariant |h| == j && forall k :: 0 <= k < j ==> |T[k]| == |a| && h[k] == Term(T[k], a)
      {
        var m := SupportTerm(T[j], a);
        h := h + [m];
      }
    }

    // The term of one support.
    method SupportTerm(w: BitVector, a: BitVector) returns (m: Monomial)
      requires |w| == |a| > 0 && w[0] == a[0] == false && w != a
      ensures m == Term(w, a)
    {
      XorZeros(w, a);
      m := MonomialMDnf(Xor(w, a));
      OnesOver(Xor(w, a));
      m := ComputeMOfXXorA(m, a);
    }

    // Extends the supports of a basis by one bit each.
    method ExtendSupports(T0: seq<BitVector>, b: bool, ghost a: BitVector, ghost x: bool, ghost n: nat)
      returns (T: seq<BitVector>)
      requires PointsOK(a, T0, n)
      modifies `time
      ensures |T| == |T0| && PointsOK(a + [x], T, n + 1)
      ensures forall j :: 0 <= j < |T| ==> SupportExtends(T[j], T0[j], b, old(time) + j)
      ensures time == old(time) + |T0|
    {
      T := T0;
      for j := 0 to |T|
        invariant |T| == |T0| && forall k :: j <= k < |T| ==> T[k] == T0[k]
        invariant time == old(time) + j
        invariant forall k :: 0 <= k < j ==> SupportExtends(T[k], T0[k], b, old(time) + k)
      {
        var w := T[j] + [b];
        var member := AskMembership(w);
        var c := if member then b else !b;
        if c != b {
          w := T[j] + [c];
        }
        assert w == T0[j] + [c];
        T := T[j := w];
      }
      forall j | 0 <= j < |T| ensures IsAssignment(T[j], n + 1) && T[j] != a + [x] {
        assert SupportExtends(T[j], T0[j], b, old(time) + j);
        ExtendedDiffer(a, T0[j], x, T[j][|T0[j]|]);
      }
    }

    // Extends one basis; its terms are freed.
    method ExtendBasis(i: nat, mode: Mode)
      requires i < |bases| && PointsOK(bases[i].a, bases[i].T, numVars)
      modifies `time, `bases
      ensures |bases| == |old(bases)| && PointsOK(bases[i].a, bases[i].T, numVars + 1) && bases[i].H == Freed
      ensures BasisExtends(bases[i], old(bases)[i], mode, old(time))
      ensures time == old(time) + PointQueries(mode) + |old(bases)[i].T|
      ensures forall k :: 0 <= k < |bases| && k != i ==> bases[k] == old(bases)[k]
    {
      var a0, T0 := bases[i].a, bases[i].T;
      var a := a0 + [false];
      var b := false;
      if mode == CdnfPlusPlus {
        var c := comembership(time, a);
        time := time + 1;
        b := !c;
      }
      a := a0 + [b];
      var T := ExtendSupports(T0, b, a0, b, numVars);
      bases := bases[i := Basis(a, T, Freed)];
    }

    ghost predicate ExtendedOK(C: Basis, B: Basis, n: nat, mode: Mode, t: nat) {
      PointsOK(C.a, C.T, n + 1) && C.H == Freed && C.T != [] && BasisExtends(C, B, mode, t)
    }

    ghost predicate ExtendedBelow(bs: seq<Basis>, bs0: seq<Basis>, n: nat, mode: Mode, t: nat, i: nat) {
      && |bs| <= |bs0| && i <= |bs0|
      && forall k :: 0 <= k < i && k < |bs| ==> ExtendedOK(bs[k], bs0[k], n, mode, t + RefineQueries(bs0, mode, k))
    }

    ghost predicate SameFrom(bs: seq<Basis>, bs0: seq<Basis>, i: nat) {
      |bs| <= |bs0| && forall k :: i <= k < |bs| ==> bs[k] == bs0[k]
    }

    // The first i bases have been extended, from time t on.
    ghost predicate RefinedUpTo(bs: seq<Basis>, bs0: seq<Basis>, n: nat, mode: Mode, t: nat, i: nat) {
      && ExtendedBelow(bs, bs0, n, mode, t, i) && SameFrom(bs, bs0, i)
      && (if i < |bs0| then |bs| == |bs0| else |bs0| - 1 <= |bs| && (|bs| < |bs0| ==> bs0[|bs|].T == []))
    }

    lemma ExtendedNow(C: Basis, B: Basis, n: nat, mode: Mode, t: nat)
      requires PointsOK(C.a, C.T, n + 1) && C.H == Freed && BasisExtends(C, B, mode, t)
      ensures |C.T| == |B.T| && (C.T != [] ==> ExtendedOK(C, B, n, mode, t))
    {
    }

    lemma ExtendedKeep(bs: seq<Basis>, bs0: seq<Basis>, n: nat, mode: Mode, t: nat, i: nat, C: Basis)
      requires ExtendedBelow(bs, bs0, n, mode, t, i) && i < |bs0| == |bs|
      requires ExtendedOK(C, bs0[i], n, mode, t + RefineQueries(bs0, mode, i))
      ensures ExtendedBelow(bs[i := C], bs0, n, mode, t, i + 1)
    {
      hide RefineQueries, ExtendedOK;
    }

    lemma RefinedKeep(bs: seq<Basis>, bs0: seq<Basis>, n: nat, mode: Mode, t: nat, i: nat, C: Basis)
      requires RefinedUpTo(bs, bs0, n, mode, t, i) && i < |bs0| == |bs|
      requires ExtendedOK(C, bs0[i], n, mode, t + RefineQueries(bs0, mode, i))
      ensures RefinedUpTo(bs[i := C], bs0, n, mode, t, i + 1)
    {
      hide RefineQueries, ExtendedOK, ExtendedBelow;
      ExtendedKeep(bs, bs0, n, mode, t, i, C);
    }

    lemma RefinedDrop(bs: seq<Basis>, bs0: seq<Basis>, n: nat, mode: Mode, t: nat, i: nat)
      requires RefinedUpTo(bs, bs0, n, mode, t, i) && i == |bs0| - 1 == |bs| - 1 && bs0[i].T == []
      ensures RefinedUpTo(bs[..i], bs0, n, mode, t, i + 1)
    {
      hide RefineQueries, ExtendedOK;
    }

    lemma RefinedEnd(bs: seq<Basis>, bs1: seq<Basis>, bs0: seq<Basis>, n: nat, mode: Mode, t: nat)
      requires RefinedUpTo(bs, bs0, n, mode, t, |bs0|) && |bs1| == |bs|
      requires forall k :: 0 <= k < |bs| ==> bs1[k].a == bs[k].a && bs1[k].T == bs[k].T
      ensures RefinedFrom(bs1, bs0, mode, t + RefineQueries(bs0, mode, |bs0|))
    {
      hide PointsOK, RefineQueries, PointExtends, SupportExtends;
      forall k | 0 <= k < |bs1|
        ensures bs1[k].T != [] && BasisExtends(bs1[k], bs0[k], mode, t + RefineQueries(bs0, mode, k))
      {
        assert ExtendedOK(bs[k], bs0[k], n, mode, t + RefineQueries(bs0, mode, k));
      }
    }

    lemma Rebuildable(bs: seq<Basis>, bs0: seq<Basis>, n: nat, mode: Mode, t: nat)
      requires RefinedUpTo(bs, bs0, n, mode, t, |bs0|)
      ensures forall i :: 0 <= i < |bs| ==> PointsOK(bs[i].a, bs[i].T, n + 1) && bs[i].H == Freed
      ensures forall i :: 0 <= i < |bs| - 1 ==> bs[i].T != []
    {
      hide PointsOK, RefineQueries, BasisExtends;
      forall k | 0 <= k < |bs| ensures PointsOK(bs[k].a, bs[k].T, n + 1) && bs[k].H == Freed && bs[k].T != [] {
        assert ExtendedOK(bs[k], bs0[k], n, mode, t + RefineQueries(bs0, mode, k));
      }
    }

    /** One more variable: extends all points, drops a last basis without supports, rebuilds. */
    method RefineBases(mode: Mode)
      requires BasesOK(bases, numVars)
      modifies `time, `bases, `numVars
      ensures numVars == old(numVars) + 1 && BasesOK(bases, numVars) && RefinedFrom(bases, old(bases), mode, time)
      ensures time == old(time) + RefineQueries(old(bases), mode, |old(bases)|)
    {
      hide BasisExtends, BasisOK, PointsOK, RefineQueries, RefinedUpTo, RefinedFrom, ExtendedOK;
      ghost var bases0, n, t := bases, numVars, time;
      StartRefined(bases0, n, mode, t);
      var length := |bases|;
      for i := 0 to length
        invariant numVars == n && time == t + RefineQueries(bases0, mode, i)
        invariant RefinedUpTo(bases, bases0, n, mode, t, i)
      {
        StillThere(bases, bases0, n, mode, t, i);
        RefineQueriesNext(bases0, mode, i);
        ghost var bases1 := bases;
        ExtendBasis(i, mode);
        ExtendedNow(bases[i], bases0[i], n, mode, t + RefineQueries(bases0, mode, i));
        if bases[i].T == [] {
          assert i == length - 1;
          RefinedDrop(bases1, bases0, n, mode, t, i);
          bases := bases[..length - 1];
          assert bases == bases1[..i];
        } else {
          RefinedKeep(bases1, bases0, n, mode, t, i, bases[i]);
          assert bases == bases1[i := bases[i]];
        }
      }
      Rebuildable(bases, bases0, n, mode, t);
      ghost var bases1 := bases;
      RebuildDisjunctions(numVars + 1);
      RefinedEnd(bases1, bases, bases0, n, mode, t);
      numVars := numVars + 1;
    }

    lemma StartRefined(bs: seq<Basis>, n: nat, mode: Mode, t: nat)
      ensures RefinedUpTo(bs, bs, n, mode, t, 0) && RefineQueries(bs, mode, 0) == 0
    {
    }

    lemma StillThere(bs: seq<Basis>, bs0: seq<Basis>, n: nat, mode: Mode, t: nat, i: nat)
      requires RefinedUpTo(bs, bs0, n, mode, t, i) && i < |bs0| && BasesOK(bs0, n)
      ensures i < |bs| == |bs0| && bs[i] == bs0[i] && PointsOK(bs[i].a, bs[i].T, n)
      ensures i == |bs0| - 1 || bs0[i].T != []
    {
      assert BasisOK(bs0[i], n);
    }

    // ---------- learning ----------

    // The teacher is one of tg.f over the current variables.
    ghost predicate Exact(tg: Target, n: nat) {
      TargetOK(tg, n) && Consistent(tg.f, n)
    }

    // The end w of a walk from v towards the point of basis B.
    ghost predicate WalkEnd(f: BitVector -> bool, n: nat, B: Basis, v: BitVector, w: BitVector) {
      && Between(w, v, B.a) && IsAssignment(w, n) && (exists from, to :: Tried(w, v, B.a, 0, from, to))
      && (Answers(f, n) ==> (f(v) ==> f(w)) && LocalMin(f, w, B.a))
    }

    /** Walks from v towards the point of basis i and adds the support found; a conflict if the walk
        ends at the point itself. */
    method AddSupport(i: nat, v: BitVector, ghost f: BitVector -> bool) returns (conflict: bool, ghost w: BitVector)
      requires BasesOK(bases, numVars) && i < |bases| && IsAssignment(v, numVars)
      modifies `time, `bases
      ensures conflict <==> w == old(bases)[i].a
      ensures WalkEnd(f, numVars, old(bases)[i], v, w)
      ensures Between(w, v, old(bases)[i].a) && IsAssignment(w, numVars)
      ensures Tried(w, v, old(bases)[i].a, 0, old(time), time)
      ensures Answers(f, numVars) && f(v) ==> f(w)
      ensures Answers(f, numVars) ==> LocalMin(f, w, old(bases)[i].a)
      ensures conflict ==> bases == old(bases)
      ensures !conflict ==> bases == old(bases)[i := WithSupport(old(bases)[i], w)]
      ensures !conflict ==>
        var B := old(bases)[i];
        bases == old(bases)[i := B.(T := B.T + [w], H := Terms(B.H.ms + [Term(w, B.a)]))] && BasesOK(bases, numVars)
    {
      var B := bases[i];
      assert BasisOK(B, numVars);
      var arr := new bool[|v|](k requires 0 <= k < |v| => v[k]);
      assert arr[..] == v;
      Walk(arr, B.a, f);
      w := arr[..];
      XorZeros(w, B.a);
      conflict := IsZeros(Xor(arr[..], B.a));
      if !conflict {
        PushSupport(B, numVars, w);
        var m := SupportTerm(arr[..], B.a);
        bases := bases[i := B.(T := B.T + [arr[..]], H := Terms(B.H.ms + [m]))];
      }
    }

    // One more support of basis idx[j] keeps what a consistent teacher guarantees.
    lemma SupportKept(tg: Target, bases0: seq<Basis>, i: nat, v: BitVector, w: BitVector)
      requires Exact(tg, numVars) && TargetInv(tg, bases0) && BasesOK(bases0, numVars) && i < |bases0|
      requires IsAssignment(v, numVars) && tg.f(v) && !DnfTrue(bases0[i].H.ms, v)
      requires IsAssignment(w, numVars) && Between(w, v, bases0[i].a) && tg.f(w) && LocalMin(tg.f, w, bases0[i].a)
      ensures w != bases0[i].a
      ensures var B := bases0[i];
              var bases1 := bases0[i := B.(T := B.T + [w], H := Terms(B.H.ms + [Term(w, B.a)]))];
              TargetInv(tg, bases1) && TotalSupports(bases1) == TotalSupports(bases0) + 1
    {
      var B := bases0[i];
      var B' := B.(T := B.T + [w], H := Terms(B.H.ms + [Term(w, B.a)]));
      NewSupport(tg, B, numVars, v, w);
      UpdateInv(tg, bases0, i, B');
      TotalUpdate(bases0, i, B');
    }

    // Walk k went towards the k-th basis listed.
    ghost predicate EndAt(f: BitVector -> bool, n: nat, bs: seq<Basis>, idx: seq<nat>, v: BitVector,
            ws: seq<BitVector>, k: nat)
    {
      k < |ws| && k < |idx| && idx[k] < |bs| && WalkEnd(f, n, bs[idx[k]], v, ws[k])
    }

    // Walk k did not end at the point.
    predicate Missed(bs: seq<Basis>, idx: seq<nat>, ws: seq<BitVector>, k: nat) {
      k < |ws| && k < |idx| && idx[k] < |bs| && ws[k] != bs[idx[k]].a
    }

    // The ends of the walks towards the first bases listed: all but perhaps the last are supports.
    ghost predicate WalkEnds(f: BitVector -> bool, n: nat, bs: seq<Basis>, idx: seq<nat>, v: BitVector,
            ws: seq<BitVector>)
    {
      && |ws| <= |idx|
      && (forall k :: 0 <= k < |ws| ==> EndAt(f, n, bs, idx, v, ws, k))
      && (forall k :: 0 <= k < |ws| - 1 ==> Missed(bs, idx, ws, k))
    }

    // The last walk ended at the point of its basis.
    predicate HitPoint(bs: seq<Basis>, idx: seq<nat>, ws: seq<BitVector>) {
      0 < |ws| <= |idx| && idx[|ws| - 1] < |bs| && ws[|ws| - 1] == bs[idx[|ws| - 1]].a
    }

    /** Walks from v towards the points of the bases listed.  The ends become supports until one is
        the point itself, which is a conflict: the modes that keep the number of variables fail,
        and the others add a variable. */
    method FixBases(idx: seq<nat>, v: BitVector, mode: Mode, ghost tg: Target)
      returns (failed: bool, ghost ends: seq<BitVector>)
      requires BasesOK(bases, numVars) && IsAssignment(v, numVars)
      requires forall k :: 0 <= k < |idx| ==> idx[k] < |bases| && !DnfTrue(bases[idx[k]].H.ms, v)
      requires forall k, l :: 0 <= k < l < |idx| ==> idx[k] < idx[l]
      modifies `time, `bases, `numVars
      ensures BasesOK(bases, numVars) && WalkEnds(tg.f, old(numVars), old(bases), idx, v, ends)
      ensures var hit := HitPoint(old(bases), idx, ends);
        && (failed <==> hit && FixedVars(mode))
        && numVars == old(numVars) + (if hit && !FixedVars(mode) then 1 else 0)
        && (!hit ==> |ends| == |idx| && bases == WithSupports(old(bases), idx, ends))
        && (hit ==>
              var bs := WithSupports(old(bases), idx, ends[..|ends| - 1]);
              if FixedVars(mode) then bases == bs else RefinedFrom(bases, bs, mode, time))
      ensures old(Separated(bases)) ==> Separated(bases)
      ensures numVars == old(numVars) && !failed && old(Separated(bases)) ==>
        |bases| == |old(bases)| && TotalSupports(bases) == old(TotalSupports(bases)) + |idx|
      ensures old(Exact(tg, numVars) && TargetInv(tg, bases)) && tg.f(v) ==>
        && !failed && numVars == old(numVars) && |bases| == |old(bases)| && TargetInv(tg, bases)
        && TotalSupports(bases) == old(TotalSupports(bases)) + |idx|
    {
      hide BasesOK, DnfTrue, TargetInv, Exact, Separated, TotalSupports, WithSupports, WithSupport, WalkEnd, WalkEnds,
           HitPoint, RefinedFrom;
      ghost var exact := Exact(tg, numVars) && TargetInv(tg, bases) && tg.f(v);
      ghost var separated := Separated(bases);
      ghost var bases0, n := bases, numVars;
      ends := [];
      NoEnds(tg.f, n, bases0, idx, v);
      for j := 0 to |idx|
        invariant BasesOK(bases, numVars) && numVars == n && |bases| == |bases0| && |ends| == j
        invariant forall k :: j <= k < |idx| ==> bases[idx[k]] == bases0[idx[k]]
        invariant WalkEnds(tg.f, n, bases0, idx, v, ends) && !HitPoint(bases0, idx, ends)
        invariant bases == WithSupports(bases0, idx, ends)
        invariant exact ==> TargetInv(tg, bases)
        invariant separated ==> Separated(bases)
        invariant exact || separated ==> TotalSupports(bases) == old(TotalSupports(bases)) + j
      {
        ghost var bases1, ws := bases, ends;
        var conflict;
        ghost var w;
        conflict, w := AddSupport(idx[j], v, tg.f);
        if exact {
          ExactAnswers(tg);
          SupportKept(tg, bases1, idx[j], v, w);
        }
        ends := ws + [w];
        NextEnd(tg.f, n, bases0, idx, v, ws, w);
        LastEnd(tg.f, n, bases0, idx, v, ws, w);
        WithSupportsNext(bases0, idx, ws, w);
        if conflict {
          if mode == CdnfPlusPlus || mode == CdnfPlus3 {
            RefineBases(mode);
            if separated { RefinedSeparated(bases, bases1, n, mode, time); }
            failed := false;
            return;
          } else {
            failed := true;
            return;
          }
        }
        if separated { SeparatedSupport(bases1, n, idx[j], v, w); }
      }
      failed := false;
    }

    lemma NoEnds(f: BitVector -> bool, n: nat, bs: seq<Basis>, idx: seq<nat>, v: BitVector)
      ensures WalkEnds(f, n, bs, idx, v, []) && !HitPoint(bs, idx, []) && WithSupports(bs, idx, []) == bs
    {
    }

    lemma KeptEnd(f: BitVector -> bool, n: nat, bs: seq<Basis>, idx: seq<nat>, v: BitVector, ws: seq<BitVector>,
            w: BitVector, k: nat)
      requires EndAt(f, n, bs, idx, v, ws, k)
      ensures EndAt(f, n, bs, idx, v, ws + [w], k) && (Missed(bs, idx, ws, k) ==> Missed(bs, idx, ws + [w], k))
    {
      hide WalkEnd;
      assert (ws + [w])[k] == ws[k];
    }

    lemma LastEnd(f: BitVector -> bool, n: nat, bs: seq<Basis>, idx: seq<nat>, v: BitVector, ws: seq<BitVector>,
            w: BitVector)
      requires |ws| < |idx| && idx[|ws|] < |bs| && WalkEnd(f, n, bs[idx[|ws|]], v, w)
      ensures EndAt(f, n, bs, idx, v, ws + [w], |ws|) && (HitPoint(bs, idx, ws + [w]) <==> w == bs[idx[|ws|]].a)
      ensures (ws + [w])[..|ws|] == ws
    {
      hide WalkEnd;
    }

    lemma NextEnd(f: BitVector -> bool, n: nat, bs: seq<Basis>, idx: seq<nat>, v: BitVector, ws: seq<BitVector>,
            w: BitVector)
      requires WalkEnds(f, n, bs, idx, v, ws) && !HitPoint(bs, idx, ws) && |ws| < |idx| && idx[|ws|] < |bs|
      requires WalkEnd(f, n, bs[idx[|ws|]], v, w)
      ensures WalkEnds(f, n, bs, idx, v, ws + [w])
    {
      hide EndAt, WalkEnd;
      forall k | 0 <= k < |ws| + 1
        ensures EndAt(f, n, bs, idx, v, ws + [w], k) && (k < |ws| ==> Missed(bs, idx, ws + [w], k))
      {
        if k < |ws| {
          EndFacts(f, n, bs, idx, v, ws, k);
          KeptEnd(f, n, bs, idx, v, ws, w, k);
        } else {
          LastEnd(f, n, bs, idx, v, ws, w);
        }
      }
    }

    lemma EndFacts(f: BitVector -> bool, n: nat, bs: seq<Basis>, idx: seq<nat>, v: BitVector, ws: seq<BitVector>,
            k: nat)
      requires WalkEnds(f, n, bs, idx, v, ws) && !HitPoint(bs, idx, ws) && k < |ws|
      ensures EndAt(f, n, bs, idx, v, ws, k) && Missed(bs, idx, ws, k)
    {
      hide WalkEnd;
      assert EndAt(f, n, bs, idx, v, ws, k);
    }

    lemma ExactAnswers(tg: Target)
      requires Exact(tg, numVars)
      ensures Answers(tg.f, numVars)
    {
    }

    lemma ExactAnswer(tg: Target, v: BitVector)
      requires Exact(tg, numVars) && IsAssignment(v, numVars)
      ensures forall t :: membership(t, v) == tg.f(v)
    {
    }

    // The conjecture is wrong at v.
    ghost predicate Rejected(f: BitVector -> bool, bs: seq<Basis>, v: BitVector) {
      f(v) <==> exists i :: 0 <= i < |bs| && (bs[i].H.Terms? ==> !DnfTrue(bs[i].H.ms, v))
    }

    // A counterexample to the conjecture, seen by a consistent teacher.
    lemma Refuted(tg: Target, t: nat)
      requires Exact(tg, numVars) && BasesOK(bases, numVars)
      ensures match equivalence(t, numVars, Conjecture(bases))
              case Equal => Meets(tg.f, Conjecture(bases), numVars)
              case Counterexample(v) =>
                IsAssignment(v, numVars) && Rejected(tg.f, bases, v)
    {
      match equivalence(t, numVars, Conjecture(bases))
      case Equal =>
      case Counterexample(v) => ConjectureMeaning(bases, numVars, v);
    }

    /** Handles a counterexample: a new basis, new supports, or one more variable.  Where all
        hypotheses hold the teacher is asked again in mode CdnfPlus3 only; a member adds a
        variable there, anything else is a new basis. */
    method Refute(v: BitVector, mode: Mode, ghost tg: Target) returns (failed: bool)
      requires TeacherOK() && BasesOK(bases, numVars) && IsAssignment(v, numVars)
      modifies `time, `bases, `numVars
      ensures BasesOK(bases, numVars) && (failed ==> FixedVars(mode))
      ensures old(numVars) <= numVars <= old(numVars) + 1 && (FixedVars(mode) ==> numVars == old(numVars))
      ensures (forall i :: 0 <= i < |old(bases)| ==> DnfTrue(old(bases)[i].H.ms, v)) ==>
        if mode == CdnfPlus3 && membership(old(time), v) then
          && !failed && numVars == old(numVars) + 1 && RefinedFrom(bases, old(bases), mode, time)
          && time == old(time) + 1 + RefineQueries(old(bases), mode, |old(bases)|)
        else
          && !failed && numVars == old(numVars) && bases == old(bases) + [Basis(v, [], Terms([]))]
          && time == old(time) + if mode == CdnfPlus3 then 1 else 0
      ensures old(Separated(bases)) && !failed ==> Separated(bases)
      ensures numVars == old(numVars) && !failed && old(Separated(bases)) ==>
        |bases| + TotalSupports(bases) > |old(bases)| + old(TotalSupports(bases))
      ensures old(Exact(tg, numVars) && TargetInv(tg, bases) && Rejected(tg.f, bases, v)) ==>
        && !failed && numVars == old(numVars) && TargetInv(tg, bases)
        && |bases| + TotalSupports(bases) > |old(bases)| + old(TotalSupports(bases))
    {
      hide DnfTrue, TargetInv, Exact, Separated, IsAssignment, WithSupports, WalkEnds, HitPoint, RefinedFrom;
      ghost var bases0, n := bases, numVars;
      ghost var exact := Exact(tg, numVars) && TargetInv(tg, bases) && Rejected(tg.f, bases, v);
      var idx := GetIndicesToModify(v);
      failed := false;
      if |idx| == 0 {
        var member := false;
        if mode == CdnfPlus3 {
          member := AskMembership(v);
        }
        if exact { ExactAnswer(tg, v); }
        if member {
          RefineBases(mode);
          if Separated(bases0) { RefinedSeparated(bases, bases0, n, mode, time); }
        } else {
          if exact { NewBasisExact(tg, v); }
          if Separated(bases) { SeparatedPoint(bases, numVars, v); }
          AddBasis(v);
          NewBasisOK(bases0, numVars, v);
        }
      } else {
        assert !DnfTrue(bases[idx[0]].H.ms, v);
        ghost var ends;
        failed, ends := FixBases(idx, v, mode, tg);
      }
    }

    lemma NewBasisExact(tg: Target, v: BitVector)
      requires Exact(tg, numVars) && TargetInv(tg, bases) && BasesOK(bases, numVars) && IsAssignment(v, numVars)
          && !tg.f(v)
      requires forall i :: 0 <= i < |bases| ==> DnfTrue(bases[i].H.ms, v)
      ensures var bases' := bases + [Basis(v, [], Terms([]))];
              TargetInv(tg, bases') && TotalSupports(bases') == TotalSupports(bases)
    {
      NewBasis(tg, bases, numVars, v);
      assert (bases + [Basis(v, [], Terms([]))])[..|bases|] == bases;
    }

    // When all hypotheses hold every basis has a support.
    lemma NewBasisOK(bases0: seq<Basis>, n: nat, v: BitVector)
      requires BasesOK(bases0, n) && IsAssignment(v, n)
      requires forall i :: 0 <= i < |bases0| ==> DnfTrue(bases0[i].H.ms, v)
      ensures BasesOK(bases0 + [Basis(v, [], Terms([]))], n)
    {
      var bases' := bases0 + [Basis(v, [], Terms([]))];
      forall i | 0 <= i < |bases0| ensures bases'[i].T != [] {
        assert BasisOK(bases0[i], n) && DnfTrue(bases0[i].H.ms, v);
      }
      assert BasisOK(bases'[|bases0|], n);
    }

    /** Learning from an empty list of bases.  In the modes that keep the number of variables this
        ends whatever the teacher answers; in the others the loop stops after limit queries.  With
        a consistent teacher no mode meets a conflict, and t * s + t + 1 equivalence queries are
        enough for a target with a conjunctive normal form of t clauses and a disjunctive one of s
        terms. */
    method LearnCore(n: nat, mode: Mode, limit: nat, ghost tg: Target) returns (r: Outcome)
      requires TeacherOK()
      modifies `time, `asked, `bases, `numVars
      ensures old(asked) <= asked && BasesOK(bases, numVars)
      ensures FixedVars(mode) || limit > 0 ==> old(asked) < asked
      ensures n <= numVars && asked <= old(asked) + RetryBound(n, numVars)
      ensures FixedVars(mode) ==>
        && !r.OutOfQueries? && numVars == n && asked <= old(asked) + AnyTeacherBound(n)
      ensures !FixedVars(mode) ==>
        && !r.Conflict? && asked <= old(asked) + limit && (r.OutOfQueries? ==> asked == old(asked) + limit)
      ensures r.Learnt? ==> time > 0 && equivalence(time - 1, numVars, r.f) == Equal
      ensures Exact(tg, n) ==>
        && !r.Conflict? && asked <= old(asked) + QueryBound(tg)
        && (FixedVars(mode) || limit >= QueryBound(tg) ==> r.Learnt?)
        && numVars == n && TargetInv(tg, bases)
        && (r.Learnt? ==> Meets(tg.f, r.f, n))
    {
      hide TargetInv, Exact, BasesOK, Separated, IsAssignment, Meets, Conjecture, QueryBound, AnyTeacherBound,
           RetryBound, EarlierBound, TotalSupports;
      ghost var exact := Exact(tg, n);
      bases, numVars := [], n;
      NoBases(tg, n);
      SizeBounds(tg, n, exact);
      var start, fixed := asked, FixedVars(mode);
      if !fixed && limit == 0 {
        return OutOfQueries;
      }
      var first := GetConjecture();
      ghost var t0 := time;
      var answer := AskEquivalence(first);
      if exact { Refuted(tg, t0); }
      if answer.Equal? {
        return Learnt(first);
      }
      TeacherVector(t0, first);
      FirstBasis(tg, answer.v);
      AddBasis(answer.v);
      while fixed || asked < start + limit
        invariant BasesOK(bases, numVars) && Separated(bases) && n <= numVars && (fixed || exact ==> numVars == n)
        invariant start < asked && (fixed || asked <= start + limit) && (exact ==> TargetInv(tg, bases))
        invariant asked <= start + EarlierBound(n, numVars) + |bases| + TotalSupports(bases)
        decreases if fixed then AnyTeacherBound(n) - |bases| - TotalSupports(bases) else start + limit - asked
      {
        SizeBounds(tg, n, exact);
        var done;
        done, r := LearnRound(mode, tg);
        if done {
          return;
        }
      }
      SizeBounds(tg, n, exact);
      r := OutOfQueries;
    }

    // One conjecture, and what its counterexample leads to.
    method LearnRound(mode: Mode, ghost tg: Target) returns (done: bool, r: Outcome)
      requires TeacherOK() && BasesOK(bases, numVars) && Separated(bases)
      modifies `time, `asked, `bases, `numVars
      ensures BasesOK(bases, numVars) && asked == old(asked) + 1 && (FixedVars(mode) ==> numVars == old(numVars))
      ensures done ==> !r.OutOfQueries? && (r.Conflict? ==> FixedVars(mode)) && numVars == old(numVars)
      ensures done && r.Learnt? ==> time > 0 && equivalence(time - 1, numVars, r.f) == Equal
      ensures !done ==> Separated(bases) && old(numVars) <= numVars <= old(numVars) + 1
      ensures !done && numVars == old(numVars) ==>
        |bases| + TotalSupports(bases) > |old(bases)| + old(TotalSupports(bases))
      ensures old(Exact(tg, numVars) && TargetInv(tg, bases)) ==>
        && numVars == old(numVars) && TargetInv(tg, bases)
        && (done ==> r.Learnt? && Meets(tg.f, r.f, numVars))
    {
      hide TargetInv, Exact, BasesOK, Separated, IsAssignment, Meets, Conjecture, TotalSupports, DnfTrue, RefinedFrom;
      ghost var exact := Exact(tg, numVars) && TargetInv(tg, bases);
      done, r := true, OutOfQueries;
      var g := GetConjecture();
      ghost var t := time;
      var answer := AskEquivalence(g);
      if exact { Refuted(tg, t); }
      if answer.Equal? {
        r := Learnt(g);
      } else {
        TeacherVector(t, g);
        done := Refute(answer.v, mode, tg);
        r := Conflict;
      }
    }

    lemma SizeBounds(tg: Target, n: nat, exact: bool)
      requires BasesOK(bases, numVars) && n <= numVars && (exact ==> numVars == n)
      requires Separated(bases) && (exact ==> TargetInv(tg, bases))
      ensures |bases| + TotalSupports(bases) < AnyTeacherBound(numVars)
      ensures exact ==> |bases| + TotalSupports(bases) < QueryBound(tg)
      ensures EarlierBound(n, numVars) + AnyTeacherBound(numVars) == RetryBound(n, numVars)
      ensures EarlierBound(n, numVars + 1) == RetryBound(n, numVars)
      ensures EarlierBound(n, n) == 0
    {
      SeparatedBound(bases, numVars);
      if exact { SizeBound(tg, bases, n); }
    }

    lemma FirstBasis(tg: Target, v: BitVector)
      requires IsAssignment(v, numVars) && bases == []
      ensures var bases' := bases + [Basis(v, [], Terms([]))];
              && BasesOK(bases', numVars) && |bases'| == 1 && TotalSupports(bases') == 0 && Separated(bases')
              && (Exact(tg, numVars) && TargetInv(tg, bases) && Rejected(tg.f, bases, v) ==> TargetInv(tg, bases'))
    {
      hide DnfTrue, BasesOK, TargetInv, Exact, IsAssignment;
      NewBasisOK(bases, numVars, v);
      OneBasis(v);
      if Exact(tg, numVars) && TargetInv(tg, bases) && Rejected(tg.f, bases, v) { NewBasisExact(tg, v); }
    }

    lemma OneBasis(v: BitVector)
      ensures var bs := [] + [Basis(v, [], Terms([]))];
              TotalSupports(bs) == 0 && Separated(bs)
    {
      assert ([] + [Basis(v, [], Terms([]))])[..0] == [];
    }

    lemma NoBases(tg: Target, n: nat)
      ensures BasesOK([], n) && TargetInv(tg, []) && TotalSupports([]) == 0 && Separated([])
    {
    }

    lemma TeacherVector(t: nat, g: Formula)
      requires TeacherOK()
      ensures equivalence(t, numVars, g).Counterexample? ==> IsAssignment(equivalence(t, numVars, g).v, numVars)
    {
    }

    /** Learning in any mode; in mode CdnfPlus a conflict is followed by an attempt with one more
        variable.  Whatever the teacher answers, the queries are bounded by the variables reached.
        The attempts end whatever the number n of variables at the start if the teacher is
        consistent over some N >= n of them, though nothing is known of its answers before. */
    method Learn(n: nat, mode: Mode, limit: nat, ghost tg: Target, ghost N: nat) returns (r: Outcome)
      requires TeacherOK() && n <= N
      modifies `time, `asked, `bases, `numVars
      ensures old(asked) <= asked <= old(asked) + RetryBound(n, numVars) && n <= numVars && BasesOK(bases, numVars)
      ensures r.Learnt? ==> time > 0 && equivalence(time - 1, numVars, r.f) == Equal
      ensures mode == Cdnf ==> !r.OutOfQueries? && numVars == n && asked <= old(asked) + AnyTeacherBound(n)
      ensures r.Conflict? ==> mode == Cdnf || (mode == CdnfPlus && asked >= old(asked) + limit)
      ensures r.OutOfQueries? ==> !FixedVars(mode) && asked == old(asked) + limit
      ensures mode == CdnfPlus && Exact(tg, N) ==>
        && numVars <= N && asked <= old(asked) + RetryBound(n, N)
        && (limit >= RetryBound(n, N) ==> r.Learnt?)
        && (r.Learnt? && numVars == N ==> Meets(tg.f, r.f, N))
      ensures Exact(tg, n) ==>
        && !r.Conflict? && asked <= old(asked) + QueryBound(tg) && (limit >= QueryBound(tg) ==> r.Learnt?)
        && (r.Learnt? ==> numVars == n && Meets(tg.f, r.f, n))
    {
      hide Exact, BasesOK, IsAssignment, Meets, QueryBound, AnyTeacherBound;
      var start := asked;
      r := LearnCore(n, mode, limit, tg);
      if mode == CdnfPlus {
        var m: nat := n;
        while r.Conflict? && asked < start + limit
          invariant start <= asked <= start + RetryBound(n, m) && BasesOK(bases, numVars) && numVars == m && n <= m
          invariant !r.OutOfQueries?
          invariant r.Learnt? ==> time > 0 && equivalence(time - 1, numVars, r.f) == Equal
          invariant Exact(tg, n) ==> m == n && r.Learnt? && asked <= start + QueryBound(tg) && Meets(tg.f, r.f, n)
          invariant Exact(tg, N) ==> m <= N
          invariant Exact(tg, N) && m == N ==> r.Learnt? && Meets(tg.f, r.f, N)
          decreases start + limit - asked
        {
          m := m + 1;
          r := LearnCore(m, mode, limit, tg);
        }
        RetryMono(n, m, N);
      }
    }
  }
}
