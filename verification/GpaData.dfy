/** Training data, the domains of attribute sets, and the gain of a rule on them. */
module GpaData {
  import opened SetSizes

  datatype Instance = Instance(attrs: seq<nat>, cls: nat)

  /** Instances with their classes and what the decision list currently guesses for them
      (-1 before any rule has been applied). */
  datatype Data = Data(insts: seq<Instance>, guess: seq<int>, nclass: nat)

  ghost predicate DataOK(d: Data) {
    && |d.guess| == |d.insts| && d.nclass > 0
    && forall i :: 0 <= i < |d.insts| ==> d.insts[i].cls < d.nclass
  }

  ghost predicate Matches(x: Instance, A: set<nat>) {
    forall a :: a in A ==> a in x.attrs
  }

  // The instances that have all attributes in A.
  ghost function Domain(d: Data, A: set<nat>): set<nat> {
    set i: nat | i < |d.insts| && Matches(d.insts[i], A)
  }

  ghost function OfClass(d: Data, D: set<nat>, c: nat): set<nat> {
    set i | i in D && i < |d.insts| && d.insts[i].cls == c
  }

  predicate Mistaken(d: Data, i: nat) {
    i < |d.insts| && i < |d.guess| && d.insts[i].cls as int != d.guess[i]
  }

  ghost function Wrong(d: Data, D: set<nat>): set<nat> {
    set i | i in D && Mistaken(d, i)
  }

  ghost function WrongOf(d: Data, D: set<nat>, c: nat): set<nat> {
    set i | i in D && Mistaken(d, i) && d.insts[i].cls == c
  }

  function MaxOf(s: seq<nat>): nat {
    if s == [] then 0
    else if s[|s| - 1] > MaxOf(s[..|s| - 1]) then s[|s| - 1] else MaxOf(s[..|s| - 1])
  }

  lemma {:induction false} MaxOfIs(s: seq<nat>)
    ensures forall k :: 0 <= k < |s| ==> s[k] <= MaxOf(s)
    ensures s != [] ==> exists k :: 0 <= k < |s| && s[k] == MaxOf(s)
  {
    if s == [] {
    } else {
      var t := s[..|s| - 1];
      MaxOfIs(t);
      if s[|s| - 1] > MaxOf(t) || t == [] {
        assert s[|s| - 1] == MaxOf(s);
      } else {
        var k :| 0 <= k < |t| && t[k] == MaxOf(t);
        assert s[k] == MaxOf(s);
      }
    }
  }

  lemma MaxOfUnique(s: seq<nat>, k: nat)
    requires k < |s| && forall j :: 0 <= j < |s| ==> s[j] <= s[k]
    ensures MaxOf(s) == s[k]
  {
    MaxOfIs(s);
  }

  // The number of instances of D of each class, and that of the mistaken ones.
  ghost function Counts(d: Data, D: set<nat>): seq<nat> {
    seq(d.nclass, c requires 0 <= c < d.nclass => |OfClass(d, D, c)|)
  }

  ghost function WrongCounts(d: Data, D: set<nat>): seq<nat> {
    seq(d.nclass, c requires 0 <= c < d.nclass => |WrongOf(d, D, c)|)
  }

  // The size of the largest class of D.
  ghost function MaxCount(d: Data, D: set<nat>): nat {
    MaxOf(Counts(d, D))
  }

  // The largest number of mistakes on a single class.
  ghost function MaxWrong(d: Data, D: set<nat>): nat {
    MaxOf(WrongCounts(d, D))
  }

  // What predicting class c on D gains over the current guesses.
  ghost function ClassGain(d: Data, D: set<nat>, c: nat): int {
    |OfClass(d, D, c)| + |Wrong(d, D)| - |D|
  }

  /** The gain of the best rule with attribute set A. */
  ghost function Gain(d: Data, A: set<nat>): int {
    MaxCount(d, Domain(d, A)) + |Wrong(d, Domain(d, A))| - |Domain(d, A)|
  }

  // ---------- bounds ----------

  /** A class gains at most its mistakes. */
  lemma ClassGainBound(d: Data, D: set<nat>, c: nat)
    requires DataOK(d) && forall i :: i in D ==> i < |d.insts|
    ensures ClassGain(d, D, c) <= |WrongOf(d, D, c)|
  {
    var right := D - Wrong(d, D);
    var rightOf := OfClass(d, D, c) - WrongOf(d, D, c);
    assert rightOf <= right;
    SubsetSize(rightOf, right);
    assert OfClass(d, D, c) == rightOf + WrongOf(d, D, c);
    assert D == right + Wrong(d, D);
  }

  lemma BestClassGain(d: Data, D: set<nat>) returns (c: nat)
    requires d.nclass > 0
    ensures c < d.nclass && |OfClass(d, D, c)| == MaxCount(d, D)
  {
    MaxOfIs(Counts(d, D));
    c :| 0 <= c < d.nclass && Counts(d, D)[c] == MaxCount(d, D);
  }

  lemma MaxWrongAtLeast(d: Data, D: set<nat>, c: nat)
    requires c < d.nclass
    ensures |WrongOf(d, D, c)| <= MaxWrong(d, D)
  {
    MaxOfIs(WrongCounts(d, D));
    assert WrongCounts(d, D)[c] <= MaxWrong(d, D);
  }

  lemma WorstClass(d: Data, D: set<nat>) returns (c: nat)
    requires d.nclass > 0
    ensures c < d.nclass && |WrongOf(d, D, c)| == MaxWrong(d, D)
  {
    MaxOfIs(WrongCounts(d, D));
    c :| 0 <= c < d.nclass && WrongCounts(d, D)[c] == MaxWrong(d, D);
  }

  lemma MaxWrongMono(d: Data, D: set<nat>, E: set<nat>)
    requires d.nclass > 0 && D <= E
    ensures MaxWrong(d, D) <= MaxWrong(d, E) <= |E|
  {
    var c := WorstClass(d, D);
    SubsetSize(WrongOf(d, D, c), WrongOf(d, E, c));
    MaxWrongAtLeast(d, E, c);
    var e := WorstClass(d, E);
    SubsetSize(WrongOf(d, E, e), E);
  }

  /** A rule gains no more than the largest class of mistakes in a superset of its domain. */
  lemma GainBound(d: Data, A: set<nat>, E: set<nat>)
    requires DataOK(d) && Domain(d, A) <= E
    ensures Gain(d, A) <= MaxWrong(d, E)
  {
    var D := Domain(d, A);
    var c := BestClassGain(d, D);
    ClassGainBound(d, D, c);
    MaxWrongAtLeast(d, D, c);
    MaxWrongMono(d, D, E);
  }

  lemma DomainMono(d: Data, A: set<nat>, B: set<nat>)
    requires A <= B
    ensures Domain(d, B) <= Domain(d, A)
  {
  }

  /** An attribute without effect on the domain of P has none on larger attribute sets. */
  lemma NoEffect(d: Data, P: set<nat>, S: set<nat>, b: nat)
    requires Domain(d, P + {b}) == Domain(d, P) && b in S
    ensures Domain(d, P + S) == Domain(d, P + (S - {b}))
  {
    forall i | i in Domain(d, P + (S - {b})) ensures i in Domain(d, P + S) {
      assert i in Domain(d, P);
      assert i in Domain(d, P + {b});
    }
  }

  lemma SameGain(d: Data, A: set<nat>, B: set<nat>)
    requires Domain(d, A) == Domain(d, B)
    ensures Gain(d, A) == Gain(d, B)
  {
  }

  // ---------- comparing rules ----------

  /** A rule of gain g with len attributes is no better than one of gain bg with bl attributes:
      it gains less, or as much with at least as many attributes. */
  predicate NotBetter(g: int, len: nat, bg: int, bl: nat) {
    g < bg || (g == bg && len >= bl)
  }

  // The best rule found may only be replaced by a better one.
  predicate Improved(bg0: int, bl0: nat, bg: int, bl: nat) {
    bg > bg0 || (bg == bg0 && bl <= bl0)
  }

  // It is still the same rule, or a better one; an equally good one does not replace it.
  predicate SameOrBetter(attr0: seq<nat>, gain0: int, cls0: nat, attr: seq<nat>, gain: int, cls: nat) {
    && Improved(gain0, |attr0|, gain, |attr|)
    && (gain == gain0 && |attr| == |attr0| ==> attr == attr0 && cls == cls0)
  }
}
