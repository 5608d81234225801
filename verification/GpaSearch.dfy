/** The branch-and-bound search for the best rule: with all its prunings it finds what an
    exhaustive search over the attribute sets up to the given depth would find. */
module GpaSearch {
  import opened SetSizes
  import opened Sorting
  import opened GpaData

  // ---------- what is known of an attribute after it has been tried ----------

  /** The rule A with len attributes has all instances in its domain, or is no better than the
      best: the search leaves the former out. */
  ghost predicate Beaten(d: Data, A: set<nat>, len: nat, bg: int, bl: nat) {
    Domain(d, A) == Domain(d, {}) || NotBetter(Gain(d, A), len, bg, bl)
  }

  /** The rule P + {a} is no better than the best; the maximal gain below it is mg, unless nothing
      below it can matter. */
  ghost predicate Tried(d: Data, P: set<nat>, len: nat, a: nat, mg: int, bg: int, bl: nat) {
    var Da := Domain(d, P + {a});
    && mg >= 0 && Beaten(d, P + {a}, len + 1, bg, bl)
    && (mg == MaxWrong(d, Da) || (mg == 0 && (Da == Domain(d, P) || NotBetter(MaxWrong(d, Da), len + 1, bg, bl))))
  }

  lemma TriedStays(d: Data, P: set<nat>, len: nat, a: nat, mg: int, bg0: int, bl0: nat, bg: int, bl: nat)
    requires Tried(d, P, len, a, mg, bg0, bl0) && Improved(bg0, bl0, bg, bl)
    ensures Tried(d, P, len, a, mg, bg, bl)
  {
  }

  // The rule P + S is beaten.
  ghost predicate Dominated(d: Data, P: set<nat>, len: nat, S: set<nat>, bg: int, bl: nat) {
    Beaten(d, P + S, len + |S|, bg, bl)
  }

  /** Every extension of P by attributes of U, up to depth of them, is beaten. */
  ghost predicate Searched(d: Data, P: set<nat>, len: nat, U: set<nat>, depth: nat, bg: int, bl: nat) {
    forall S: set<nat> :: S != {} && S <= U && |S| <= depth ==> Dominated(d, P, len, S, bg, bl)
  }

  lemma SearchedStays(d: Data, P: set<nat>, len: nat, U: set<nat>, depth: nat, bg0: int, bl0: nat, bg: int, bl: nat)
    requires Searched(d, P, len, U, depth, bg0, bl0) && Improved(bg0, bl0, bg, bl)
    ensures Searched(d, P, len, U, depth, bg, bl)
  {
    forall S: set<nat> | S != {} && S <= U && |S| <= depth ensures Dominated(d, P, len, S, bg, bl) {
      assert Dominated(d, P, len, S, bg0, bl0);
    }
  }

  /** The sets with a are those searched below P + {a}. */
  lemma SearchedStep(d: Data, P: set<nat>, len: nat, U: set<nat>, a: nat, depth: nat, bg: int, bl: nat)
    requires Searched(d, P, len, U, depth, bg, bl) && depth > 0 && a !in U
    requires Beaten(d, P + {a}, len + 1, bg, bl)
    requires U == {} || Searched(d, P + {a}, len + 1, U, depth - 1, bg, bl)
    ensures Searched(d, P, len, U + {a}, depth, bg, bl)
  {
    hide Dominated, NotBetter, Gain;
    forall S: set<nat> | S != {} && S <= U + {a} && |S| <= depth ensures Dominated(d, P, len, S, bg, bl) {
      if a !in S {
        assert S <= U;
      } else {
        var R := S - {a};
        if R == {} {
          assert S == {a};
          DominatedSingleton(d, P, len, a, bg, bl);
        } else {
          assert Dominated(d, P + {a}, len + 1, R, bg, bl);
          DominatedBelow(d, P, len, S, a, bg, bl);
        }
      }
    }
  }

  lemma DominatedSingleton(d: Data, P: set<nat>, len: nat, a: nat, bg: int, bl: nat)
    requires Beaten(d, P + {a}, len + 1, bg, bl)
    ensures Dominated(d, P, len, {a}, bg, bl)
  {
  }

  lemma DominatedBelow(d: Data, P: set<nat>, len: nat, S: set<nat>, a: nat, bg: int, bl: nat)
    requires a in S && Dominated(d, P + {a}, len + 1, S - {a}, bg, bl)
    ensures Dominated(d, P, len, S, bg, bl)
  {
    assert P + {a} + (S - {a}) == P + S;
  }

  lemma SingletonsSearched(d: Data, P: set<nat>, len: nat, U: set<nat>, bg: int, bl: nat)
    requires forall a :: a in U ==> Beaten(d, P + {a}, len + 1, bg, bl)
    ensures Searched(d, P, len, U, 1, bg, bl)
  {
    forall S: set<nat> | S != {} && S <= U && |S| <= 1 ensures Dominated(d, P, len, S, bg, bl) {
      var a :| a in S;
      SubsetSize({a}, S);
      assert |S - {a}| == 0;
      assert S == {a};
    }
  }

  /** An attribute whose bound is reached by the best rule can be dropped with everything below. */
  lemma BelowBound(d: Data, P: set<nat>, len: nat, S: set<nat>, b: nat, bg: int, bl: nat)
    requires DataOK(d) && b in S && NotBetter(MaxWrong(d, Domain(d, P + {b})), len + 1, bg, bl)
    ensures Dominated(d, P, len, S, bg, bl)
  {
    DomainMono(d, P + {b}, P + S);
    GainBound(d, P + S, Domain(d, P + {b}));
    SubsetSize({b}, S);
  }

  /** When the sorted loop stops at an attribute, no set with a remaining attribute matters. */
  lemma {:induction false} StopHere(d: Data, P: set<nat>, len: nat, U: set<nat>, V: set<nat>, mg: seq<int>,
          S: set<nat>, depth: nat, bg: int, bl: nat)
    requires DataOK(d) && Searched(d, P, len, U, depth, bg, bl) && S != {} && S <= U + V && |S| <= depth
    requires Beaten(d, P, len, bg, bl) && bg >= 0 && (bg == 0 ==> bl == 0)
    requires forall b :: b in V ==> b < |mg| && Tried(d, P, len, b, mg[b], bg, bl) && (mg[b] < bg || mg[b] == 0)
    ensures Dominated(d, P, len, S, bg, bl)
    decreases |S|
  {
    hide Gain, MaxWrong, Domain;
    if S <= U {
      assert Dominated(d, P, len, S, bg, bl);
    } else {
      var b :| b in S && b !in U;
      assert b in V;
      var Db := Domain(d, P + {b});
      if Db == Domain(d, P) {
        var R := S - {b};
        NoEffect(d, P, S, b);
        if R == {} {
          assert P + R == P;
        } else {
          StopHere(d, P, len, U, V, mg, R, depth, bg, bl);
        }
        SameGain(d, P + S, P + R);
      } else {
        assert NotBetter(MaxWrong(d, Db), len + 1, bg, bl);
        BelowBound(d, P, len, S, b, bg, bl);
      }
    }
  }

  lemma StopExhausts(d: Data, P: set<nat>, len: nat, U: set<nat>, V: set<nat>, mg: seq<int>, depth: nat, bg: int,
          bl: nat)
    requires DataOK(d) && Searched(d, P, len, U, depth, bg, bl)
    requires Beaten(d, P, len, bg, bl) && bg >= 0 && (bg == 0 ==> bl == 0)
    requires forall b :: b in V ==> b < |mg| && Tried(d, P, len, b, mg[b], bg, bl) && (mg[b] < bg || mg[b] == 0)
    ensures Searched(d, P, len, U + V, depth, bg, bl)
  {
    forall S: set<nat> | S != {} && S <= U + V && |S| <= depth ensures Dominated(d, P, len, S, bg, bl) {
      StopHere(d, P, len, U, V, mg, S, depth, bg, bl);
    }
  }

  // ---------- rules that match everything ----------

  /** No rule with attributes of U, up to depth of them, is better than the best. */
  ghost predicate Exhausted(d: Data, U: set<nat>, depth: nat, bg: int, bl: nat) {
    forall S: set<nat> :: S != {} && S <= U && |S| <= depth ==> NotBetter(Gain(d, S), |S|, bg, bl)
  }

  /** A depth that allows all attributes allows everything. */
  lemma ExhaustedDeeper(d: Data, n: nat, depth: nat, m: nat, bg: int, bl: nat)
    requires Exhausted(d, AllBelow(n), depth, bg, bl) && (m <= depth || n <= depth)
    ensures Exhausted(d, AllBelow(n), m, bg, bl)
  {
    hide Gain, AllBelow;
    forall S: set<nat> | S != {} && S <= AllBelow(n) && |S| <= m ensures NotBetter(Gain(d, S), |S|, bg, bl) {
      SubsetSize(S, AllBelow(n));
    }
  }

  // Every instance has attribute a.
  ghost predicate Covers(d: Data, a: nat) {
    Domain(d, {a}) == Domain(d, {})
  }

  lemma CoveringGain(d: Data, S: set<nat>, a: nat)
    requires Domain(d, S) == Domain(d, {}) && a in S
    ensures Covers(d, a) && Gain(d, S) == Gain(d, {}) && Gain(d, {a}) == Gain(d, {}) && |S| >= 1
  {
    DomainMono(d, {a}, S);
    DomainMono(d, {}, {a});
    SameGain(d, S, {});
    SameGain(d, {a}, {});
    SubsetSize({a}, S);
  }

  /** Leaving out the rules that match everything loses nothing exactly when there are none, or a
      single class for everything is no better than the best rule. */
  lemma SearchedAll(d: Data, U: set<nat>, depth: nat, bg: int, bl: nat)
    requires Searched(d, {}, 0, U, depth, bg, bl) && (depth > 0 || U == {})
    ensures Exhausted(d, U, depth, bg, bl) <==>
            (forall a :: a in U ==> !Covers(d, a)) || NotBetter(Gain(d, {}), 1, bg, bl)
  {
    hide Gain, Domain;
    forall S: set<nat> | S != {} && S <= U && |S| <= depth
      ensures NotBetter(Gain(d, S), |S|, bg, bl) ||
              (!NotBetter(Gain(d, {}), 1, bg, bl) && exists a :: a in U && Covers(d, a))
    {
      assert Dominated(d, {}, 0, S, bg, bl) && {} + S == S;
      if !NotBetter(Gain(d, S), |S|, bg, bl) {
        var a :| a in S;
        CoveringGain(d, S, a);
      }
    }
    forall a | a in U && Covers(d, a) ensures Exhausted(d, U, depth, bg, bl) ==> NotBetter(Gain(d, {}), 1, bg, bl) {
      CoveringGain(d, {a}, a);
      assert {a} <= U && |{a}| == 1;
    }
  }

  /** Where every instance has all attributes the search finds nothing; that is right if and only
      if predicting a single class for everything gains nothing. */
  lemma AllCovering(d: Data, U: set<nat>, depth: nat)
    requires U != {} && depth > 0 && forall a :: a in U ==> Covers(d, a)
    ensures Searched(d, {}, 0, U, depth, 0, 0) && (Exhausted(d, U, depth, 0, 0) <==> Gain(d, {}) <= 0)
    ensures forall S: set<nat> :: S <= U ==> Domain(d, S) == Domain(d, {})
  {
    hide Gain;
    forall S: set<nat> | S <= U ensures Domain(d, S) == Domain(d, {}) {
      forall i | i in Domain(d, {}), a | a in S ensures a in d.insts[i].attrs {
        assert Covers(d, a) && i in Domain(d, {a});
      }
    }
    forall S: set<nat> | S <= U ensures {} + S == S {
    }
    var a :| a in U;
    SearchedAll(d, U, depth, 0, 0);
  }

  // All attributes of a rule are numbered below n.
  ghost predicate Below(attrs: seq<nat>, n: nat) {
    forall k :: 0 <= k < |attrs| ==> attrs[k] < n
  }

  lemma BelowSet(attrs: seq<nat>, n: nat)
    requires Below(attrs, n)
    ensures SetOf(attrs) <= AllBelow(n)
  {
  }

  // ---------- the order of the candidates ----------

  function At(mg: seq<int>, a: nat): int {
    if a < |mg| then mg[a] else 0
  }

  // Larger maximal gains first.
  function ByMaxGain(mg: seq<int>): (nat, nat) -> bool {
    (x: nat, y: nat) => At(mg, x) > At(mg, y)
  }

  lemma ByMaxGainWeak(mg: seq<int>, S: multiset<nat>)
    ensures StrictWeak(ByMaxGain(mg), S)
  {
  }

  // ---------- counting ----------

  // The first j instances that have attribute a.
  ghost function Having(insts: seq<Instance>, a: nat, j: nat): set<nat> {
    set i: nat | i < j && i < |insts| && a in insts[i].attrs
  }

  // Attributes are numbered below nattr, and no instance repeats one.
  ghost predicate AttributesOK(insts: seq<Instance>, nattr: nat) {
    forall i :: 0 <= i < |insts| ==>
      && (forall k :: 0 <= k < |insts[i].attrs| ==> insts[i].attrs[k] < nattr)
      && (forall k, l :: 0 <= k < l < |insts[i].attrs| ==> insts[i].attrs[k] != insts[i].attrs[l])
  }

  // The instances of each attribute.
  method BuildIndex(insts: seq<Instance>, nattr: nat) returns (index: seq<seq<nat>>)
    requires AttributesOK(insts, nattr)
    ensures |index| == nattr && forall a :: 0 <= a < nattr ==> Lists(index[a], Having(insts, a, |insts|))
  {
    index := seq(nattr, _ => []);
    for j := 0 to |insts|
      invariant |index| == nattr && forall a :: 0 <= a < nattr ==> Lists(index[a], Having(insts, a, j))
    {
      ghost var index0 := index;
      var x := insts[j];
      for k := 0 to |x.attrs|
        invariant |index| == nattr
        invariant forall a :: 0 <= a < nattr ==> index[a] == if a in x.attrs[..k] then index0[a] + [j] else index0[a]
      {
        var a := x.attrs[k];
        assert a !in x.attrs[..k];
        index := index[a := index[a] + [j]];
        assert x.attrs[..k + 1] == x.attrs[..k] + [a];
      }
      assert x.attrs[..|x.attrs|] == x.attrs;
      forall a: nat | a < nattr ensures Lists(index[a], Having(insts, a, j + 1)) {
        HavingNext(insts, a, j, index0[a]);
      }
    }
  }

  lemma HavingNext(insts: seq<Instance>, a: nat, j: nat, s: seq<nat>)
    requires j < |insts| && Lists(s, Having(insts, a, j))
    ensures Lists(if a in insts[j].attrs then s + [j] else s, Having(insts, a, j + 1))
  {
    forall k | 0 <= k < |s| ensures s[k] < j {
      assert s[k] in s;
    }
  }

  class SearchContext {
    const insts: seq<Instance>
    const nclass: nat
    const nattr: nat
    const index: seq<seq<nat>>     // the instances of each attribute

    var guess: seq<int>
    var attr: seq<nat>             // the rule being extended
    var bestAttr: seq<nat>
    var bestGain: int
    var bestClass: nat

    constructor (insts: seq<Instance>, nclass: nat, nattr: nat)
      requires nclass > 0 && forall i :: 0 <= i < |insts| ==> insts[i].cls < nclass
      requires AttributesOK(insts, nattr)
      ensures ContextOK() && this.insts == insts && this.nclass == nclass && this.nattr == nattr
      ensures guess == seq(|insts|, _ => -1) && attr == []
      ensures bestAttr == [] && bestGain == 0
    {
      this.insts, this.nclass, this.nattr := insts, nclass, nattr;
      var idx := BuildIndex(insts, nattr);
      index := idx;
      guess := seq(|insts|, _ => -1);
      attr, bestAttr, bestGain, bestClass := [], [], 0, 0;
      new;
      IndexDomains();
    }

    lemma IndexDomains()
      requires |index| == nattr && forall a :: 0 <= a < nattr ==> Lists(index[a], Having(insts, a, |insts|))
      ensures forall a :: 0 <= a < nattr ==> Lists(index[a], Domain(D(), {a}))
    {
      forall a: nat | a < nattr ensures Having(insts, a, |insts|) == Domain(D(), {a}) {
      }
    }

    ghost function D(): Data
      reads `guess
    {
      Data(insts, guess, nclass)
    }

    ghost predicate ContextOK()
      reads `guess
    {
      && DataOK(D()) && |index| == nattr
      && forall a :: 0 <= a < nattr ==> Lists(index[a], Domain(D(), {a}))
    }

    /** The best rule so far attains its gain; no gain means no rule. */
    ghost predicate BestOK(limit: nat)
      reads `guess, `bestAttr, `bestGain, `bestClass
    {
      && bestGain >= 0 && (bestGain == 0 ==> bestAttr == [])
      && (bestGain > 0 ==>
            && 1 <= |bestAttr| <= limit && Lists(bestAttr, SetOf(bestAttr)) && bestClass < nclass
            && Below(bestAttr, nattr)
            && Gain(D(), SetOf(bestAttr)) == bestGain && Domain(D(), SetOf(bestAttr)) != Domain(D(), {})
            && ClassGain(D(), Domain(D(), SetOf(bestAttr)), bestClass) == bestGain)
    }

    // The instances of a list that have attribute a.
    method Intersect(inst: seq<nat>, a: nat, ghost P: set<nat>) returns (z: seq<nat>)
      requires Lists(inst, Domain(D(), P))
      ensures Lists(z, Domain(D(), P + {a}))
    {
      z := [];
      for j := 0 to |inst|
        invariant forall k :: 0 <= k < |z| ==> z[k] in inst[..j] && z[k] < |insts| && a in insts[z[k]].attrs
        invariant forall k :: 0 <= k < j && inst[k] < |insts| && a in insts[inst[k]].attrs ==> inst[k] in z
        invariant forall k, l :: 0 <= k < l < |z| ==> z[k] != z[l]
      {
        assert inst[j] in inst && inst[j] in Domain(D(), P);
        if a in insts[inst[j]].attrs {
          z := z + [inst[j]];
        }
      }
      assert inst[..|inst|] == inst;
      forall i: nat | i in Domain(D(), P + {a}) ensures i in z {
        assert i in Domain(D(), P);
        assert i in inst;
      }
      forall i | i in z ensures i in Domain(D(), P + {a}) {
        assert i in inst && i in Domain(D(), P);
      }
    }

    // Counts the instances of each class, and the mistaken ones.
    method CountClasses(z: seq<nat>, ghost E: set<nat>) returns (cnt: seq<nat>, mist: seq<nat>, nmistakes: nat)
      requires DataOK(D()) && Lists(z, E) && forall i :: i in E ==> i < |insts|
      ensures cnt == Counts(D(), E) && mist == WrongCounts(D(), E) && nmistakes == |Wrong(D(), E)|
    {
      hide Wrong;
      cnt, mist, nmistakes := seq(nclass, _ => 0), seq(nclass, _ => 0), 0;
      CountNothing(D());
      for j := 0 to |z|
        invariant cnt == Counts(D(), SetOf(z[..j])) && mist == WrongCounts(D(), SetOf(z[..j]))
        invariant nmistakes == |Wrong(D(), SetOf(z[..j]))|
      {
        var i := z[j];
        assert i in z;
        CountNext(D(), SetOf(z[..j]), i);
        assert z[..j + 1] == z[..j] + [i];
        assert SetOf(z[..j + 1]) == SetOf(z[..j]) + {i};
        var c := insts[i].cls;
        cnt := cnt[c := cnt[c] + 1];
        if c as int != guess[i] {
          nmistakes := nmistakes + 1;
          mist := mist[c := mist[c] + 1];
        }
      }
      assert z[..|z|] == z;
      assert SetOf(z) == E;
    }

    // The first largest class, and the largest number of mistakes.
    method BestClass(cnt: seq<nat>, mist: seq<nat>) returns (c: nat, maxg: nat)
      requires |cnt| == |mist| == nclass > 0
      ensures c < nclass && cnt[c] == MaxOf(cnt) && maxg == MaxOf(mist)
      ensures forall k :: 0 <= k < c ==> cnt[k] < cnt[c]
    {
      c, maxg := 0, mist[0];
      ghost var m := 0;
      for j := 1 to nclass
        invariant c < j && (forall k :: 0 <= k < j ==> cnt[k] <= cnt[c]) && (forall k :: 0 <= k < c ==> cnt[k] < cnt[c])
        invariant 0 <= m < j && mist[m] == maxg && forall k :: 0 <= k < j ==> mist[k] <= maxg
      {
        if cnt[j] > cnt[c] {
          c := j;
        }
        if mist[j] > maxg {
          maxg, m := mist[j], j;
        }
      }
      MaxOfUnique(cnt, c);
      MaxOfUnique(mist, m);
    }

    // Whether the current best rule makes a bound of g with one more attribute useless.
    predicate Hopeless(g: int)
      reads `attr, `bestAttr, `bestGain
      ensures Hopeless(g) == NotBetter(g, |attr| + 1, bestGain, |bestAttr|)
    {
      g < bestGain || (g == bestGain && |attr| + 1 >= |bestAttr|)
    }

    // What the search relies on.
    ghost predicate Searching(inst: seq<nat>, limit: nat)
      reads `guess, `attr, `bestAttr, `bestGain, `bestClass
    {
      && ContextOK() && BestOK(limit) && Lists(attr, SetOf(attr)) && Below(attr, nattr)
      && Lists(inst, Domain(D(), SetOf(attr)))
      && Beaten(D(), SetOf(attr), |attr|, bestGain, |bestAttr|)
    }

    // The domain of the current rule with attribute a.
    method DomainWith(inst: seq<nat>, a: nat, ghost limit: nat) returns (z: seq<nat>)
      requires Searching(inst, limit) && a < nattr
      ensures Lists(z, Domain(D(), SetOf(attr) + {a}))
    {
      if |attr| > 0 {
        z := Intersect(inst, a, SetOf(attr));
      } else {
        z := index[a];
        assert SetOf(attr) + {a} == {a};
      }
    }

    // Updates the best rule with attribute a.
    method UpdateBest(a: nat, gain: int, c: nat, ghost limit: nat)
      requires BestOK(limit) && Lists(attr, SetOf(attr)) && |attr| < limit && a !in attr && c < nclass
      requires Below(attr, nattr) && a < nattr
      requires Domain(D(), SetOf(attr) + {a}) != Domain(D(), {})
      requires gain == Gain(D(), SetOf(attr) + {a}) == ClassGain(D(), Domain(D(), SetOf(attr) + {a}), c)
      modifies `bestAttr, `bestGain, `bestClass
      ensures BestOK(limit) && SameOrBetter(old(bestAttr), old(bestGain), old(bestClass), bestAttr, bestGain, bestClass)
      ensures NotBetter(gain, |attr| + 1, bestGain, |bestAttr|)
      ensures if NotBetter(gain, |attr| + 1, old(bestGain), |old(bestAttr)|)
              then bestGain == old(bestGain) && bestAttr == old(bestAttr) && bestClass == old(bestClass)
              else bestGain == gain && bestAttr == attr + [a] && bestClass == c
    {
      if gain > bestGain || (gain == bestGain && |attr| + 1 < |bestAttr|) {
        bestGain, bestClass := gain, c;
        bestAttr := attr + [a];
        assert SetOf(bestAttr) == SetOf(attr) + {a};
      }
    }

    // A smaller domain is not that of all instances.
    lemma Effective(P: set<nat>, a: nat)
      requires |Domain(D(), P + {a})| != |Domain(D(), P)|
      ensures Domain(D(), P + {a}) != Domain(D(), {})
    {
      DomainMono(D(), P, P + {a});
      DomainMono(D(), {}, P);
      assert Domain(D(), P + {a}) == Domain(D(), {}) ==> Domain(D(), P) == Domain(D(), {});
    }

    /** Tries one attribute: computes its domain and the bound below it, unless it is skipped, and
        updates the best rule. */
    method TryAttribute(inst: seq<nat>, a: nat, ghost limit: nat) returns (z: seq<nat>, maxg: nat)
      requires Searching(inst, limit) && a < nattr && a !in attr && |attr| < limit
      modifies `bestAttr, `bestGain, `bestClass
      ensures Searching(inst, limit)
      ensures SameOrBetter(old(bestAttr), old(bestGain), old(bestClass), bestAttr, bestGain, bestClass)
      ensures Lists(z, Domain(D(), SetOf(attr) + {a}))
      ensures Tried(D(), SetOf(attr), |attr|, a, maxg, bestGain, |bestAttr|)
    {
      ghost var P := SetOf(attr);
      ghost var E := Domain(D(), P + {a});
      maxg := 0;
      z := DomainWith(inst, a, limit);
      ListSize(z, E);
      ListSize(inst, Domain(D(), P));
      GainBound(D(), P + {a}, E);
      MaxWrongMono(D(), E, E);
      if |z| == |inst| {
        SameDomain(D(), P, a);
        return;
      }
      Effective(P, a);
      if Hopeless(|z|) {
        return;
      }
      var cnt, mist, nmistakes := CountClasses(z, E);
      var c, m := BestClass(cnt, mist);
      if Hopeless(m) {
        return;
      }
      maxg := m;
      UpdateBest(a, cnt[c] + nmistakes - |z|, c, limit);
    }

    /** Searches the extensions of the current rule by up to depth attributes of tr[..ntry]. */
    method Search(inst: seq<nat>, tr: array<nat>, ntry: nat, depth: nat, ghost limit: nat)
      requires Searching(inst, limit) && ntry <= tr.Length && |attr| + depth <= limit && (depth > 0 || ntry == 0)
      requires Candidates(tr[..ntry])
      modifies `attr, `bestAttr, `bestGain, `bestClass, tr
      ensures attr == old(attr) && BestOK(limit)
          && SameOrBetter(old(bestAttr), old(bestGain), old(bestClass), bestAttr, bestGain, bestClass)
      ensures Lists(tr[..ntry], SetOf(old(tr[..ntry])))
      ensures Searched(D(), SetOf(attr), |attr|, SetOf(old(tr[..ntry])), depth, bestGain, |bestAttr|)
      decreases depth, 2
    {
      hide Candidates, BestOK, ContextOK, Tried, Searched, Lists, Gain, Domain, AllTried;
      ghost var t := tr[..ntry];
      var instPtr, maxgain := TryAll(inst, tr, ntry, limit);
      if depth == 1 {
        TriedSingletons(t, instPtr, maxgain);
        ListItself(t);
        return;
      }
      SortCandidates(tr, ntry, maxgain);
      TriedSorted(t, tr[..ntry], instPtr, maxgain);
      Recurse(inst, tr, ntry, depth, instPtr, maxgain, limit);
      SearchedSame(t, tr[..ntry], depth);
    }

    lemma ListItself(t: seq<nat>)
      requires Candidates(t)
      ensures Lists(t, SetOf(t))
    {
    }

    lemma SearchedSame(t: seq<nat>, t': seq<nat>, depth: nat)
      requires Lists(t', SetOf(t)) && Searched(D(), SetOf(attr), |attr|, SetOf(t'), depth, bestGain, |bestAttr|)
      ensures Searched(D(), SetOf(attr), |attr|, SetOf(t), depth, bestGain, |bestAttr|)
    {
      assert SetOf(t') == SetOf(t);
    }

    lemma TriedSingletons(t: seq<nat>, instPtr: seq<seq<nat>>, maxgain: seq<int>)
      requires AllTried(t, instPtr, maxgain)
      ensures Searched(D(), SetOf(attr), |attr|, SetOf(t), 1, bestGain, |bestAttr|)
    {
      hide Searched;
      forall a | a in SetOf(t) ensures Beaten(D(), SetOf(attr) + {a}, |attr| + 1, bestGain, |bestAttr|) {
        var k :| 0 <= k < |t| && t[k] == a;
        assert CandidateTried(t[k], instPtr[t[k]], maxgain[t[k]]);
      }
      SingletonsSearched(D(), SetOf(attr), |attr|, SetOf(t), bestGain, |bestAttr|);
    }

    lemma TriedSorted(t: seq<nat>, t': seq<nat>, instPtr: seq<seq<nat>>, maxgain: seq<int>)
      requires AllTried(t, instPtr, maxgain) && Lists(t', SetOf(t))
      ensures AllTried(t', instPtr, maxgain)
    {
      hide CandidateTried;
      forall k | 0 <= k < |t'| ensures t'[k] < nattr && CandidateTried(t'[k], instPtr[t'[k]], maxgain[t'[k]]) {
        assert t'[k] in t' && t'[k] in SetOf(t);
        var j :| 0 <= j < |t| && t[j] == t'[k];
      }
    }

    // The attributes to try are different and not in the current rule.
    ghost predicate Candidates(t: seq<nat>)
      reads `attr
    {
      && (forall i :: 0 <= i < |t| ==> t[i] < nattr && t[i] !in attr)
      && (forall i, j :: 0 <= i < j < |t| ==> t[i] != t[j])
    }

    // The domain and the bound of every candidate in t.
    ghost predicate AllTried(t: seq<nat>, instPtr: seq<seq<nat>>, maxgain: seq<int>)
      reads `guess, `attr, `bestAttr, `bestGain
    {
      && |instPtr| == |maxgain| == nattr
      && forall k :: 0 <= k < |t| ==> t[k] < nattr && CandidateTried(t[k], instPtr[t[k]], maxgain[t[k]])
    }

    ghost predicate CandidateTried(a: nat, z: seq<nat>, mg: int)
      reads `guess, `attr, `bestAttr, `bestGain
    {
      && Lists(z, Domain(D(), SetOf(attr) + {a}))
      && Tried(D(), SetOf(attr), |attr|, a, mg, bestGain, |bestAttr|)
    }

    // Tries all candidates.
    method TryAll(inst: seq<nat>, tr: array<nat>, ntry: nat, ghost limit: nat)
      returns (instPtr: seq<seq<nat>>, maxgain: seq<int>)
      requires Searching(inst, limit) && ntry <= tr.Length && Candidates(tr[..ntry]) && (ntry > 0 ==> |attr| < limit)
      modifies `bestAttr, `bestGain, `bestClass
      ensures Searching(inst, limit)
      ensures SameOrBetter(old(bestAttr), old(bestGain), old(bestClass), bestAttr, bestGain, bestClass)
      ensures AllTried(tr[..ntry], instPtr, maxgain)
    {
      hide Tried, BestOK, ContextOK, Lists, Gain;
      instPtr, maxgain := seq(nattr, _ => []), seq(nattr, _ => 0);
      ghost var t := tr[..ntry];
      for i := 0 to ntry
        invariant Searching(inst, limit)
        invariant SameOrBetter(old(bestAttr), old(bestGain), old(bestClass), bestAttr, bestGain, bestClass)
        invariant AllTried(t[..i], instPtr, maxgain)
      {
        var a := tr[i];
        assert t[i] == a;
        ghost var bg, bl := bestGain, |bestAttr|;
        var z, mg := TryAttribute(inst, a, limit);
        forall k | 0 <= k < i ensures CandidateTried(t[k], instPtr[t[k]], maxgain[t[k]]) {
          assert t[..i][k] == t[k];
          TriedStays(D(), SetOf(attr), |attr|, t[k], maxgain[t[k]], bg, bl, bestGain, |bestAttr|);
        }
        instPtr, maxgain := instPtr[a := z], maxgain[a := mg];
      }
      assert t[..ntry] == t;
    }

    // Sorts the candidates by the bounds below them.
    method SortCandidates(tr: array<nat>, ntry: nat, maxgain: seq<int>)
      requires ntry <= tr.Length && Candidates(tr[..ntry])
      modifies tr
      ensures Candidates(tr[..ntry]) && Lists(tr[..ntry], SetOf(old(tr[..ntry])))
      ensures forall i, j :: 0 <= i < j < ntry ==> At(maxgain, tr[j]) <= At(maxgain, tr[i])
    {
      hide StrictWeak, Sorted;
      ghost var t := tr[..ntry];
      assert t == tr[0..ntry];
      ByMaxGainWeak(maxgain, multiset(t));
      Sort(tr, 0, ntry, ByMaxGain(maxgain));
      assert tr[0..ntry] == tr[..ntry];
      PermutedLists(t, tr[..ntry], SetOf(t));
      SortedGains(maxgain, tr[..ntry]);
      forall i | 0 <= i < ntry ensures tr[..ntry][i] < nattr && tr[..ntry][i] !in attr {
        assert tr[..ntry][i] in t;
      }
    }

    // The domain of a candidate is that of the extended rule.
    lemma BelowCandidate(a: nat, z: seq<nat>, mg: int, inst: seq<nat>, limit: nat)
      requires Searching(inst, limit) && CandidateTried(a, z, mg) && a !in attr
      ensures SetOf(attr + [a]) == SetOf(attr) + {a} && Lists(attr + [a], SetOf(attr + [a]))
      ensures a < nattr ==> Below(attr + [a], nattr)
      ensures Lists(z, Domain(D(), SetOf(attr + [a])))
      ensures Beaten(D(), SetOf(attr + [a]), |attr| + 1, bestGain, |bestAttr|)
    {
      assert SetOf(attr + [a]) == SetOf(attr) + {a};
    }

    // The next candidates below a are those already dealt with.
    lemma NextCandidates(t: seq<nat>, i: nat, next: seq<nat>)
      requires Candidates(t) && i < |t| && Lists(next, SetOf(t[..i]))
      ensures forall k :: 0 <= k < |next| ==> next[k] < nattr && next[k] !in attr + [t[i]]
      ensures t[i] !in SetOf(t[..i]) && SetOf(t[..i + 1]) == SetOf(t[..i]) + {t[i]}
      ensures Lists(next + [t[i]], SetOf(t[..i + 1]))
    {
      assert t[..i + 1] == t[..i] + [t[i]];
      forall k | 0 <= k < |next| ensures next[k] < nattr && next[k] !in attr + [t[i]] && next[k] != t[i] {
        assert next[k] in next && next[k] in SetOf(t[..i]);
      }
    }

    // All bounds hold on when the best rule improves.
    lemma AllTriedStay(t: seq<nat>, instPtr: seq<seq<nat>>, maxgain: seq<int>, bg: int, bl: nat)
      requires |instPtr| == |maxgain| == nattr && Improved(bg, bl, bestGain, |bestAttr|)
      requires forall k :: 0 <= k < |t| ==> t[k] < nattr && Lists(instPtr[t[k]], Domain(D(), SetOf(attr) + {t[k]}))
      requires forall k :: 0 <= k < |t| ==> Tried(D(), SetOf(attr), |attr|, t[k], maxgain[t[k]], bg, bl)
      ensures AllTried(t, instPtr, maxgain)
    {
    }

    // What the loop over the sorted candidates has done before index i.
    ghost predicate DoneBelow(t: seq<nat>, i: nat, next: seq<nat>, depth: nat)
      reads `guess, `attr, `bestAttr, `bestGain
    {
      && i <= |t| && Lists(next, SetOf(t[..i]))
      && Searched(D(), SetOf(attr), |attr|, SetOf(t[..i]), depth, bestGain, |bestAttr|)
    }

    lemma StartRecurse(t: seq<nat>, depth: nat)
      ensures DoneBelow(t, 0, [], depth)
    {
      assert SetOf(t[..0]) == {};
    }

    // The bounds only fall from index i on: nothing with a remaining candidate matters.
    lemma StopRecurse(t: seq<nat>, i: nat, next: seq<nat>, depth: nat, instPtr: seq<seq<nat>>, maxgain: seq<int>,
            inst: seq<nat>, limit: nat)
      requires Searching(inst, limit) && AllTried(t, instPtr, maxgain) && DoneBelow(t, i, next, depth) && i < |t|
      requires forall k, l :: 0 <= k < l < |t| ==> At(maxgain, t[l]) <= At(maxgain, t[k])
      requires maxgain[t[i]] < bestGain || maxgain[t[i]] == 0
      ensures Searched(D(), SetOf(attr), |attr|, SetOf(t), depth, bestGain, |bestAttr|)
    {
      hide Searched, Tried, Gain, ContextOK;
      var U, V := SetOf(t[..i]), SetOf(t[i..]);
      assert t == t[..i] + t[i..];
      assert SetOf(t) == U + V;
      forall b | b in V
        ensures b < |maxgain| && Tried(D(), SetOf(attr), |attr|, b, maxgain[b], bestGain, |bestAttr|)
        ensures maxgain[b] < bestGain || maxgain[b] == 0
      {
        var k :| 0 <= k < |t[i..]| && t[i..][k] == b;
        assert t[i + k] == b && CandidateTried(t[i + k], instPtr[t[i + k]], maxgain[t[i + k]]);
        BoundNotNegative(b, maxgain[b]);
      }
      ContextData();
      StopExhausts(D(), SetOf(attr), |attr|, U, V, maxgain, depth, bestGain, |bestAttr|);
    }

    lemma BoundNotNegative(b: nat, mg: int)
      requires Tried(D(), SetOf(attr), |attr|, b, mg, bestGain, |bestAttr|)
      ensures mg >= 0
    {
    }

    lemma ContextData()
      requires ContextOK()
      ensures DataOK(D())
    {
    }

    // Searches below candidate t[i] with the candidates before it.
    method RecurseBelow(inst: seq<nat>, ghost t: seq<nat>, a: nat, i: nat, depth: nat, z: seq<nat>, ghost mg: int,
                        tryNext: array<nat>, ghost limit: nat)
      requires Searching(inst, limit) && Candidates(t) && i < |t| && a == t[i] && CandidateTried(a, z, mg)
      requires i < tryNext.Length && DoneBelow(t, i, tryNext[..i], depth) && depth > 1 && |attr| + depth <= limit
      modifies `attr, `bestAttr, `bestGain, `bestClass, tryNext
      ensures attr == old(attr) && Searching(inst, limit)
          && SameOrBetter(old(bestAttr), old(bestGain), old(bestClass), bestAttr, bestGain, bestClass)
      ensures Lists(tryNext[..i], SetOf(t[..i]))
      ensures Searched(D(), SetOf(attr), |attr|, SetOf(t[..i + 1]), depth, bestGain, |bestAttr|)
      decreases depth, 0
    {
      hide Tried, ContextOK, BestOK, Searched, Gain, Domain, Below;
      ghost var P, len, bg, bl := SetOf(attr), |attr|, bestGain, |bestAttr|;
      ghost var U := SetOf(t[..i]);
      NextCandidates(t, i, tryNext[..i]);
      BelowCandidate(a, z, mg, inst, limit);
      if i > 0 {
        attr := attr + [a];
        assert SetOf(tryNext[..i]) == U;
        Search(z, tryNext, i, depth - 1, limit);
        attr := attr[..|attr| - 1];
        SearchedStays(D(), P, len, U, depth, bg, bl, bestGain, |bestAttr|);
      } else {
        assert U == {};
      }
      SearchedStep(D(), P, len, U, a, depth, bestGain, |bestAttr|);
    }

    /** Searches below the sorted candidates, each with the ones before it as further candidates. */
    method Recurse(inst: seq<nat>, tr: array<nat>, ntry: nat, depth: nat, instPtr: seq<seq<nat>>, maxgain: seq<int>,
            ghost limit: nat)
      requires Searching(inst, limit) && ntry <= tr.Length && |attr| + depth <= limit && (depth > 1 || ntry == 0)
      requires Candidates(tr[..ntry]) && AllTried(tr[..ntry], instPtr, maxgain)
      requires forall i, j :: 0 <= i < j < ntry ==> At(maxgain, tr[j]) <= At(maxgain, tr[i])
      modifies `attr, `bestAttr, `bestGain, `bestClass
      ensures attr == old(attr) && Searching(inst, limit)
          && SameOrBetter(old(bestAttr), old(bestGain), old(bestClass), bestAttr, bestGain, bestClass)
      ensures Searched(D(), SetOf(attr), |attr|, SetOf(tr[..ntry]), depth, bestGain, |bestAttr|)
      decreases depth, 1
    {
      hide Tried, ContextOK, BestOK, Lists, Searched, SetOf, Gain, Domain, Below;
      ghost var t := tr[..ntry];
      var tryNext := new nat[ntry];
      StartRecurse(t, depth);
      assert tryNext[..0] == [];
      for i := 0 to ntry
        invariant attr == old(attr) && Searching(inst, limit)
            && SameOrBetter(old(bestAttr), old(bestGain), old(bestClass), bestAttr, bestGain, bestClass)
        invariant Candidates(t) && AllTried(t, instPtr, maxgain) && DoneBelow(t, i, tryNext[..i], depth)
      {
        var a := tr[i];
        assert a == t[i];
        if maxgain[a] < bestGain || maxgain[a] == 0 {
          StopRecurse(t, i, tryNext[..i], depth, instPtr, maxgain, inst, limit);
          return;
        }
        ghost var bg, bl := bestGain, |bestAttr|;
        RecurseBelow(inst, t, a, i, depth, instPtr[a], maxgain[a], tryNext, limit);
        AllTriedStay(t, instPtr, maxgain, bg, bl);
        NextCandidates(t, i, tryNext[..i]);
        tryNext[i] := a;
        assert tryNext[..i + 1] == tryNext[..i] + [a];
      }
      assert t[..ntry] == t;
    }

    method Reset()
      modifies `attr, `bestAttr, `bestGain, `bestClass
      ensures attr == [] && bestAttr == [] && bestGain == 0
    {
      attr, bestAttr, bestGain, bestClass := [], [], 0, 0;
    }

    // The most frequent class.
    method InitClass(z: seq<nat>, ghost E: set<nat>) returns (c: nat)
      requires DataOK(D()) && Lists(z, E) && forall i :: i in E ==> i < |insts|
      ensures c < nclass && |OfClass(D(), E, c)| == MaxCount(D(), E)
    {
      var cnt, mist, nmistakes := CountClasses(z, E);
      var m;
      c, m := BestClass(cnt, mist);
    }

    /** The whole search: no rule of up to depth attributes is better than the one found, if and
        only if no attribute is had by all instances or predicting a single class for everything is
        no better either, as when it gains nothing. */
    method FindRule(all: seq<nat>, tr: array<nat>, depth: nat)
      requires ContextOK() && Lists(all, Domain(D(), {}))
      requires tr.Length == nattr && Lists(tr[..], AllBelow(nattr)) && (depth > 0 || nattr == 0)
      modifies `attr, `bestAttr, `bestGain, `bestClass, tr
      ensures Lists(tr[..], AllBelow(nattr)) && BestOK(depth)
      ensures Exhausted(D(), AllBelow(nattr), depth, bestGain, |bestAttr|) <==>
              (forall a :: 0 <= a < nattr ==> !Covers(D(), a)) || NotBetter(Gain(D(), {}), 1, bestGain, |bestAttr|)
      ensures Gain(D(), {}) <= 0 ==> Exhausted(D(), AllBelow(nattr), depth, bestGain, |bestAttr|)
      ensures (forall a :: 0 <= a < nattr ==> Covers(D(), a)) && nattr > 0 ==> bestGain == 0
    {
      hide ContextOK, Searched, Exhausted, Covers, Lists, Domain, Gain, Searching, Candidates;
      Reset();
      FindReady(all, tr[..], depth);
      assert tr[..nattr] == tr[..];
      Search(all, tr, nattr, depth, depth);
      assert tr[..nattr] == tr[..];
      SearchedAll(D(), AllBelow(nattr), depth, bestGain, |bestAttr|);
      if nattr > 0 && forall a :: 0 <= a < nattr ==> Covers(D(), a) {
        AllCovering(D(), AllBelow(nattr), depth);
        if bestGain > 0 { BelowSet(bestAttr, nattr); }
      }
    }

    lemma FindReady(all: seq<nat>, t: seq<nat>, depth: nat)
      requires ContextOK() && Lists(all, Domain(D(), {}))
      requires attr == [] && bestAttr == [] && bestGain == 0 && Lists(t, AllBelow(nattr))
      ensures Searching(all, depth) && Candidates(t) && SetOf(attr) == {} && SetOf(t) == AllBelow(nattr)
    {
      assert SetOf(attr) == {};
      forall i | 0 <= i < |t| ensures t[i] < nattr {
        assert t[i] in t;
      }
    }
  }

  lemma SortedGains(mg: seq<int>, t: seq<nat>)
    requires Sorted(ByMaxGain(mg), t)
    ensures forall i, j :: 0 <= i < j < |t| ==> At(mg, t[j]) <= At(mg, t[i])
  {
    forall i, j | 0 <= i < j < |t| ensures At(mg, t[j]) <= At(mg, t[i]) {
      assert !ByMaxGain(mg)(t[j], t[i]);
    }
  }

  // A subset of the same size is the whole set.
  lemma SameDomain(d: Data, P: set<nat>, a: nat)
    requires |Domain(d, P + {a})| == |Domain(d, P)|
    ensures Domain(d, P + {a}) == Domain(d, P)
  {
    DomainMono(d, P, P + {a});
    if x :| x in Domain(d, P) && x !in Domain(d, P + {a}) {
      SubsetSize(Domain(d, P + {a}), Domain(d, P) - {x});
    }
  }

  lemma CountNothing(d: Data)
    ensures Counts(d, SetOf([])) == seq(d.nclass, _ => 0) && WrongCounts(d, SetOf([])) == seq(d.nclass, _ => 0)
    ensures Wrong(d, SetOf([])) == {}
  {
    forall c | 0 <= c < d.nclass ensures Counts(d, SetOf([]))[c] == 0 && WrongCounts(d, SetOf([]))[c] == 0 {
      assert OfClass(d, SetOf([]), c) == {} && WrongOf(d, SetOf([]), c) == {};
    }
  }

  lemma OfClassNext(d: Data, S: set<nat>, i: nat, k: nat)
    requires i < |d.insts| && i !in S
    ensures |OfClass(d, S + {i}, k)| == |OfClass(d, S, k)| + (if k == d.insts[i].cls then 1 else 0)
  {
    assert OfClass(d, S + {i}, k) == if k == d.insts[i].cls then OfClass(d, S, k) + {i} else OfClass(d, S, k);
  }

  lemma WrongOfNext(d: Data, S: set<nat>, i: nat, k: nat)
    requires i < |d.insts| && i !in S
    ensures |WrongOf(d, S + {i}, k)| == |WrongOf(d, S, k)| + (if k == d.insts[i].cls && Mistaken(d, i) then 1 else 0)
  {
    assert WrongOf(d, S + {i}, k) == if k == d.insts[i].cls && Mistaken(d, i) then WrongOf(d, S, k) + {i}
        else WrongOf(d, S, k);
  }

  lemma WrongNext(d: Data, S: set<nat>, i: nat)
    requires i < |d.insts| && i !in S
    ensures |Wrong(d, S + {i})| == |Wrong(d, S)| + (if Mistaken(d, i) then 1 else 0)
  {
    assert Wrong(d, S + {i}) == if Mistaken(d, i) then Wrong(d, S) + {i} else Wrong(d, S);
  }

  lemma CountNext(d: Data, S: set<nat>, i: nat)
    requires DataOK(d) && i < |d.insts| && i !in S
    ensures var c := d.insts[i].cls;
      && Counts(d, S + {i}) == Counts(d, S)[c := Counts(d, S)[c] + 1]
      && (if Mistaken(d, i) then WrongCounts(d, S + {i}) == WrongCounts(d, S)[c := WrongCounts(d, S)[c] + 1]
          else WrongCounts(d, S + {i}) == WrongCounts(d, S))
      && |Wrong(d, S + {i})| == |Wrong(d, S)| + (if Mistaken(d, i) then 1 else 0)
  {
    hide OfClass, WrongOf, Wrong;
    forall k: nat | k < d.nclass
      ensures Counts(d, S + {i})[k] == Counts(d, S)[k] + (if k == d.insts[i].cls then 1 else 0)
      ensures WrongCounts(d, S + {i})[k] == WrongCounts(d, S)[k] + (if k == d.insts[i].cls && Mistaken(d, i) then 1
          else 0)
    {
      OfClassNext(d, S, i, k);
      WrongOfNext(d, S, i, k);
    }
    WrongNext(d, S, i);
  }
}
