/** Learning a decision list: rules are applied one after the other, each the best one for what the
    list guesses so far. */
module GpaRules {
  import opened SetSizes
  import opened GpaData
  import opened GpaSearch

  datatype Rule = Rule(attr: seq<nat>, cls: nat, gain: int, correct: nat, domain: nat, vgain: int, vcorrect: nat,
      vdomain: nat)

  // Whether x has all attributes of a rule.
  method RMatch(attr: seq<nat>, x: Instance) returns (b: bool)
    ensures b == Matches(x, SetOf(attr))
  {
    for i := 0 to |attr|
      invariant forall k :: 0 <= k < i ==> attr[k] in x.attrs
    {
      var m := false;
      for j := 0 to |x.attrs|
        invariant !m && forall k :: 0 <= k < j ==> x.attrs[k] != attr[i]
      {
        if x.attrs[j] == attr[i] {
          m := true;
          break;
        }
      }
      if !m {
        assert attr[i] in SetOf(attr) && attr[i] !in x.attrs;
        return false;
      }
    }
    b := true;
  }

  // The guesses after a rule has been applied.
  ghost function Applied(d: Data, A: set<nat>, c: nat): seq<int>
    requires |d.guess| == |d.insts|
  {
    seq(|d.guess|, i requires 0 <= i < |d.guess| => if Matches(d.insts[i], A) then c else d.guess[i])
  }

  // The instances guessed correctly.
  ghost function Correct(d: Data): set<nat> {
    set i: nat | i < |d.insts| && !Mistaken(d, i) && i < |d.guess|
  }

  // The first j instances of the domain.
  ghost function DomainUpTo(d: Data, A: set<nat>, j: nat): set<nat> {
    set i: nat | i < j && i < |d.insts| && Matches(d.insts[i], A)
  }

  lemma DomainNext(d: Data, A: set<nat>, j: nat)
    requires j < |d.insts|
    ensures DomainUpTo(d, A, j + 1) == if Matches(d.insts[j], A) then DomainUpTo(d, A, j) + {j} else DomainUpTo(d, A, j)
    ensures j !in DomainUpTo(d, A, j)
  {
  }

  /** Applying a rule changes the number of correct guesses by its gain. */
  lemma GainIsProgress(d: Data, A: set<nat>, c: nat)
    requires |d.guess| == |d.insts|
    ensures |Correct(d.(guess := Applied(d, A, c)))| == |Correct(d)| + ClassGain(d, Domain(d, A), c)
  {
    var D := Domain(d, A);
    var e := d.(guess := Applied(d, A, c));
    var outside, inside := Correct(d) - D, D - Wrong(d, D);
    assert Correct(e) == outside + OfClass(d, D, c) by {
      forall i: nat | i < |d.insts| ensures i in Correct(e) <==> i in outside + OfClass(d, D, c) {
        assert e.guess[i] == if Matches(d.insts[i], A) then c as int else d.guess[i];
      }
    }
    assert outside !! OfClass(d, D, c);
    assert Correct(d) == outside + inside;
    assert D == inside + Wrong(d, D);
  }

  /** Applies a rule to a list of instances: the new guesses and the statistics. */
  method ApplyTo(insts: seq<Instance>, guess0: seq<int>, attr: seq<nat>, c: nat)
    returns (guess: seq<int>, gain: int, correct: nat, domain: nat)
    requires |guess0| == |insts|
    ensures var d := Data(insts, guess0, 0);
      var A := SetOf(attr);
      && guess == Applied(d, A, c)
      && domain == |Domain(d, A)| && correct == |OfClass(d, Domain(d, A), c)| && gain == ClassGain(d, Domain(d, A), c)
  {
    hide Matches, Wrong, OfClass;
    ghost var d, A := Data(insts, guess0, 0), SetOf(attr);
    guess, gain, correct, domain := guess0, 0, 0, 0;
    StartApply(d, A, c);
    for j := 0 to |insts|
      invariant |guess| == |insts|
      invariant forall k :: 0 <= k < |insts| ==> guess[k] == if k < j then Applied(d, A, c)[k] else guess0[k]
      invariant domain == |DomainUpTo(d, A, j)| && correct == |OfClass(d, DomainUpTo(d, A, j), c)|
      invariant gain == ClassGain(d, DomainUpTo(d, A, j), c)
    {
      var x := insts[j];
      DomainNext(d, A, j);
      OfClassNext(d, DomainUpTo(d, A, j), j, c);
      WrongNext(d, DomainUpTo(d, A, j), j);
      var m := RMatch(attr, x);
      if m {
        domain := domain + 1;
        if c == x.cls {
          correct := correct + 1;
          if guess[j] != x.cls as int {
            gain := gain + 1;
          }
        } else if guess[j] == x.cls as int {
          gain := gain - 1;
        }
        guess := guess[j := c];
      }
    }
    assert DomainUpTo(d, A, |insts|) == Domain(d, A);
  }

  lemma StartApply(d: Data, A: set<nat>, c: nat)
    ensures DomainUpTo(d, A, 0) == {} && OfClass(d, {}, c) == {} && Wrong(d, {}) == {}
  {
    assert DomainUpTo(d, A, 0) == {};
  }

  // Classes do not matter for what a rule changes, nor does the number of classes.
  lemma SameCounts(d: Data, e: Data, S: set<nat>, c: nat)
    requires e.insts == d.insts && e.guess == d.guess
    ensures OfClass(e, S, c) == OfClass(d, S, c) && Wrong(e, S) == Wrong(d, S)
    ensures forall A :: Domain(e, A) == Domain(d, A)
    ensures ClassGain(e, S, c) == ClassGain(d, S, c)
  {
  }

  // ---------- the decision list ----------

  // The class of the last rule that matches x, or -1.
  ghost function Guess(dlist: seq<Rule>, x: Instance): int {
    if dlist == [] then -1
    else if Matches(x, SetOf(dlist[|dlist| - 1].attr)) then dlist[|dlist| - 1].cls
    else Guess(dlist[..|dlist| - 1], x)
  }

  /** Every instance is guessed as the list says. */
  ghost predicate GuessedBy(dlist: seq<Rule>, insts: seq<Instance>, guess: seq<int>) {
    |guess| == |insts| && forall i :: 0 <= i < |insts| ==> guess[i] == Guess(dlist, insts[i])
  }

  lemma GuessedNext(dlist: seq<Rule>, r: Rule, insts: seq<Instance>, guess: seq<int>)
    requires GuessedBy(dlist, insts, guess)
    ensures GuessedBy(dlist + [r], insts, Applied(Data(insts, guess, 0), SetOf(r.attr), r.cls))
  {
    var g := Applied(Data(insts, guess, 0), SetOf(r.attr), r.cls);
    forall i | 0 <= i < |insts| ensures g[i] == Guess(dlist + [r], insts[i]) {
      assert (dlist + [r])[..|dlist|] == dlist;
    }
  }

  /** Without a rule with attributes, predicting one class gains no more than the largest class
      has over the correct guesses. */
  lemma RootGain(d: Data)
    requires DataOK(d)
    ensures Gain(d, {}) == MaxCount(d, Domain(d, {})) - |Correct(d)|
  {
    var D := Domain(d, {});
    assert D == Correct(d) + Wrong(d, D);
    assert Correct(d) !! Wrong(d, D);
  }

  lemma CountsIgnoreGuess(d: Data, e: Data, D: set<nat>)
    requires e.insts == d.insts && e.nclass == d.nclass
    ensures MaxCount(e, D) == MaxCount(d, D) && forall A :: Domain(e, A) == Domain(d, A)
  {
    forall c | 0 <= c < d.nclass ensures Counts(e, D)[c] == Counts(d, D)[c] {
      assert OfClass(e, D, c) == OfClass(d, D, c);
    }
    assert Counts(e, D) == Counts(d, D);
  }

  datatype Prune = PrintAll | PrintIfBetter | PrintIfNotWorse

  /** What the learner has done: each rule but the first gained something, and the running totals
      are the numbers of correct guesses. */
  class RuleLearner {
    const ctx: SearchContext
    const validate: seq<Instance>

    var vguess: seq<int>
    var dlist: seq<Rule>
    var total: int
    var vtotal: int
    ghost var vtotals: seq<int>    // the validation total after each rule

    constructor (train: seq<Instance>, validate: seq<Instance>, nclass: nat, nattr: nat)
      requires nclass > 0 && (forall i :: 0 <= i < |train| ==> train[i].cls < nclass) && AttributesOK(train, nattr)
      ensures ctx.insts == train && ctx.nclass == nclass && ctx.nattr == nattr && this.validate == validate
          && fresh(ctx)
      ensures Accounted() && ctx.ContextOK() && dlist == [] && total == 0
    {
      ctx := new SearchContext(train, nclass, nattr);
      this.validate := validate;
      vguess := seq(|validate|, _ => -1);
      dlist, total, vtotal, vtotals := [], 0, 0, [];
      new;
      NothingCorrect(Data(train, ctx.guess, nclass));
      NothingCorrect(V());
    }

    ghost function V(): Data
      reads `vguess
    {
      Data(validate, vguess, 0)
    }

    ghost predicate Accounted()
      reads `vguess, `dlist, `total, `vtotal, `vtotals, ctx`guess
    {
      && GuessedBy(dlist, ctx.insts, ctx.guess) && GuessedBy(dlist, validate, vguess)
      && total == |Correct(ctx.D())| && vtotal == |Correct(V())|
      && |vtotals| == |dlist| && (dlist != [] ==> vtotals[|dlist| - 1] == vtotal)
    }

    /** Applies a rule to both sets of instances and appends it to the list. */
    method RuleApply(attr: seq<nat>, c: nat) returns (r: Rule)
      requires Accounted() && ctx.ContextOK() && c < ctx.nclass
      modifies `vguess, `dlist, `total, `vtotal, `vtotals, ctx`guess
      ensures Accounted() && ctx.ContextOK() && dlist == old(dlist) + [r] && r.attr == attr && r.cls == c
      ensures vtotals == old(vtotals) + [vtotal]
      ensures r.gain == ClassGain(old(ctx.D()), Domain(old(ctx.D()), SetOf(attr)), c) && total == old(total) + r.gain
      ensures r.domain == |Domain(old(ctx.D()), SetOf(attr))|
      ensures r.correct == |OfClass(old(ctx.D()), Domain(old(ctx.D()), SetOf(attr)), c)|
      ensures r.vgain == ClassGain(old(V()), Domain(old(V()), SetOf(attr)), c) && vtotal == old(vtotal) + r.vgain
      ensures r.vdomain == |Domain(old(V()), SetOf(attr))|
      ensures r.vcorrect == |OfClass(old(V()), Domain(old(V()), SetOf(attr)), c)|
    {
      hide Matches, Correct, Guess, Wrong, OfClass;
      ghost var A, d, v := SetOf(attr), ctx.D(), V();
      ghost var e := Data(ctx.insts, ctx.guess, 0);
      SameCounts(d, e, Domain(d, A), c);
      SameCorrect(d, e);
      GainIsProgress(e, A, c);
      GainIsProgress(v, A, c);
      var guess, gain, correct, domain := ApplyTo(ctx.insts, ctx.guess, attr, c);
      var vg, vgain, vcorrect, vdomain := ApplyTo(validate, vguess, attr, c);
      r := Rule(attr, c, gain, correct, domain, vgain, vcorrect, vdomain);
      GuessedNext(dlist, r, ctx.insts, ctx.guess);
      GuessedNext(dlist, r, validate, vguess);
      ctx.guess, vguess := guess, vg;
      SameCorrect(ctx.D(), e.(guess := guess));
      SameDomains(d, ctx.D());
      dlist, total, vtotal := dlist + [r], total + gain, vtotal + vgain;
      vtotals := vtotals + [vtotal];
    }

    // After the first rule, predicting one class for everything gains nothing.
    ghost predicate Started()
      reads `dlist, ctx`guess
    {
      dlist != [] && Gain(ctx.D(), {}) <= 0
    }

    /** Starts the list with the most frequent class. */
    method FirstRule(all: seq<nat>)
      requires Accounted() && ctx.ContextOK() && dlist == [] && total == 0 && Lists(all, Domain(ctx.D(), {}))
      modifies `vguess, `dlist, `total, `vtotal, `vtotals, ctx`guess
      ensures Accounted() && ctx.ContextOK() && Started() && |dlist| == 1 && dlist[0].attr == [] && total >= 0
      ensures LargestClass(dlist[0].cls)
      ensures Lists(all, Domain(ctx.D(), {}))
    {
      hide Correct, OfClass, Wrong, Matches, Guess;
      ghost var d := ctx.D();
      AfterIs();
      assert SetOf<nat>([]) == {};
      var c := ctx.InitClass(all, Domain(d, {}));
      var r := RuleApply([], c);
      FirstGain(d, c, ctx.D());
    }

    lemma FirstGain(d: Data, c: nat, e: Data)
      requires DataOK(d) && DataOK(e) && e.insts == d.insts && e.nclass == d.nclass
      requires |OfClass(d, Domain(d, {}), c)| == MaxCount(d, Domain(d, {}))
      requires |Correct(e)| == |Correct(d)| + ClassGain(d, Domain(d, {}), c) && |Correct(d)| == 0
      ensures Gain(e, {}) <= 0 && Domain(e, {}) == Domain(d, {})
    {
      CountsIgnoreGuess(d, e, Domain(d, {}));
      RootGain(e);
      RootGain(d);
    }

    /** Finds the best rule for the current guesses and applies it; its gain is what the search
        announced. */
    method LearnRule(all: seq<nat>, tr: array<nat>, depth: nat) returns (found: bool)
      requires Accounted() && ctx.ContextOK() && Started() && Lists(all, Domain(ctx.D(), {}))
      requires tr.Length == ctx.nattr && Lists(tr[..], AllBelow(ctx.nattr)) && (depth > 0 || ctx.nattr == 0)
      modifies `vguess, `dlist, `total, `vtotal, `vtotals, ctx, tr
      ensures Accounted() && ctx.ContextOK() && Started() && Lists(all, Domain(ctx.D(), {}))
          && Lists(tr[..], AllBelow(ctx.nattr))
      ensures !found ==>
          dlist == old(dlist) && total == old(total) && vtotals == old(vtotals) && ctx.guess == old(ctx.guess)
      ensures !found ==> Exhausted(ctx.D(), AllBelow(ctx.nattr), depth, 0, 0)
      ensures found ==>
          |dlist| == |old(dlist)| + 1 && dlist[..|dlist| - 1] == old(dlist) && vtotals == old(vtotals) + [vtotal]
      ensures found ==>
          && BestAt(old(dlist), dlist[|dlist| - 1], depth) && |dlist[|dlist| - 1].attr| <= depth
          && total == old(total) + dlist[|dlist| - 1].gain > old(total)
    {
      hide Correct, Guess, Matches, Gain, Exhausted, MaxCount;
      ghost var d := ctx.D();
      AfterIs();
      ctx.FindRule(all, tr, depth);
      if ctx.bestGain <= 0 {
        return false;
      }
      var r := RuleApply(ctx.bestAttr, ctx.bestClass);
      assert r.gain == ctx.bestGain;
      StillStarted(d, ctx.D(), r.gain);
      found := true;
    }

    // The training data as the rules of list guess them.
    ghost function After(list: seq<Rule>): Data {
      Data(ctx.insts, seq(|ctx.insts|, i requires 0 <= i < |ctx.insts| => Guess(list, ctx.insts[i])), ctx.nclass)
    }

    /** When r follows the rules of list, no rule of up to depth attributes gains more than r, nor
        as much with fewer attributes. */
    ghost predicate BestAt(list: seq<Rule>, r: Rule, depth: nat) {
      && r.gain > 0 && r.gain == Gain(After(list), SetOf(r.attr)) && 1 <= |r.attr| && Below(r.attr, ctx.nattr)
      && Exhausted(After(list), AllBelow(ctx.nattr), depth, r.gain, |r.attr|)
    }

    // What the rules guess is what is recorded.
    lemma AfterIs()
      requires Accounted()
      ensures After(dlist) == ctx.D()
    {
      assert After(dlist).guess == ctx.guess;
    }

    // No class has more training instances than c.
    ghost predicate LargestClass(c: nat) {
      var d := After([]);
      c < ctx.nclass && |OfClass(d, Domain(d, {}), c)| == MaxCount(d, Domain(d, {}))
    }

    lemma StillStarted(d: Data, e: Data, gain: int)
      requires DataOK(d) && DataOK(e) && e.insts == d.insts && e.nclass == d.nclass
      requires Gain(d, {}) <= 0 && |Correct(e)| == |Correct(d)| + gain && gain > 0
      ensures Gain(e, {}) <= 0 && Domain(e, {}) == Domain(d, {})
    {
      CountsIgnoreGuess(d, e, Domain(d, {}));
      RootGain(e);
      RootGain(d);
    }

    // All training instances.
    lemma AllInstances(all: seq<nat>)
      requires all == seq(|ctx.insts|, i requires 0 <= i < |ctx.insts| => i)
      ensures Lists(all, Domain(ctx.D(), {}))
    {
      forall i: nat | i < |ctx.insts| ensures i in all {
        assert all[i] == i;
      }
    }

    lemma CorrectBound(d: Data)
      ensures |Correct(d)| <= |d.insts|
    {
      SubsetSize(Correct(d), AllBelow(|d.insts|));
    }

    /** The learner: rules are added until none gains anything, or until the last nwait rules have not
        been worth printing.  It ends because every round raises the number of correct guesses. */
    method Run(prune: Prune, nwait: nat, maxdepth: nat) returns (nprint: nat, waited: bool)
      requires Accounted() && ctx.ContextOK() && dlist == [] && total == 0
      modifies `vguess, `dlist, `total, `vtotal, `vtotals, ctx
      ensures Accounted() && |dlist| >= 1 && dlist[0].attr == [] && |dlist| <= |ctx.insts| + 1
      ensures LargestClass(dlist[0].cls)
      ensures forall k :: 1 <= k < |dlist| ==> dlist[k].gain > 0 && (maxdepth > 0 ==> |dlist[k].attr| <= maxdepth)
      ensures forall k, m: nat :: 1 <= k < |dlist| && (maxdepth == 0 || m <= maxdepth) ==>
          BestAt(dlist[..k], dlist[k], m)
      ensures PrintedOK(prune, vtotals, nprint)
      ensures !waited ==> forall m: nat :: maxdepth == 0 || m <= maxdepth ==>
          Exhausted(ctx.D(), AllBelow(ctx.nattr), m, 0, 0)
      ensures waited <==> prune != PrintAll && nwait > 0 && |dlist| >= nprint + nwait
      ensures waited ==> |dlist| == nprint + nwait
    {
      hide Correct, Guess, Matches, Gain, Domain, Exhausted, Lists, PrintedOK, SearchContext.ContextOK, Accounted,
           Started, BestAt, After, LargestClass, DepthOf;
      var n := |ctx.insts|;
      var all: seq<nat> := seq(n, i requires 0 <= i < n => i);
      AllInstances(all);
      var tr := new nat[ctx.nattr](j => j);
      assert tr[..] == seq(ctx.nattr, j requires 0 <= j < ctx.nattr => j);
      AllAttributes(tr[..]);
      FirstRule(all);
      StartPrinting(prune);
      ghost var c := dlist[0].cls;
      nprint, waited := AddRules(all, tr, DepthOf(maxdepth), prune, nwait);
      DepthEnough(maxdepth);
    }

    // The depth of the search allows every attribute set that the option allows.
    lemma DepthEnough(maxdepth: nat)
      requires forall k :: 1 <= k < |dlist| ==> BestAt(dlist[..k], dlist[k], DepthOf(maxdepth))
      ensures forall k :: 1 <= k < |dlist| ==> dlist[k].gain > 0
      ensures forall k, m: nat :: 1 <= k < |dlist| && (maxdepth == 0 || m <= maxdepth) ==>
          BestAt(dlist[..k], dlist[k], m)
      ensures Exhausted(ctx.D(), AllBelow(ctx.nattr), DepthOf(maxdepth), 0, 0) ==>
                forall m: nat :: maxdepth == 0 || m <= maxdepth ==> Exhausted(ctx.D(), AllBelow(ctx.nattr), m, 0, 0)
    {
      hide Gain, Exhausted;
      forall k, m: nat | 1 <= k < |dlist| && (maxdepth == 0 || m <= maxdepth) ensures BestAt(dlist[..k], dlist[k], m) {
        ExhaustedDeeper(After(dlist[..k]), ctx.nattr, DepthOf(maxdepth), m, dlist[k].gain, |dlist[k].attr|);
      }
      if Exhausted(ctx.D(), AllBelow(ctx.nattr), DepthOf(maxdepth), 0, 0) {
        forall m: nat | maxdepth == 0 || m <= maxdepth ensures Exhausted(ctx.D(), AllBelow(ctx.nattr), m, 0, 0) {
          ExhaustedDeeper(ctx.D(), ctx.nattr, DepthOf(maxdepth), m, 0, 0);
        }
      }
    }

    // Adds rules to a list that has the first one.
    method AddRules(all: seq<nat>, tr: array<nat>, depth: nat, prune: Prune, nwait: nat)
      returns (nprint: nat, waited: bool)
      requires Accounted() && ctx.ContextOK() && Started() && Lists(all, Domain(ctx.D(), {}))
          && Lists(tr[..], AllBelow(ctx.nattr))
      requires tr.Length == ctx.nattr && (depth > 0 || ctx.nattr == 0) && |dlist| == 1 && 0 <= total <= |ctx.insts|
      requires Printing(prune, 1, vtotal)
      modifies `vguess, `dlist, `total, `vtotal, `vtotals, ctx, tr
      ensures Accounted() && |dlist| >= 1 && dlist[0] == old(dlist)[0] && |dlist| <= |ctx.insts| + 1
      ensures forall k :: 1 <= k < |dlist| ==> BestAt(dlist[..k], dlist[k], depth) && |dlist[k].attr| <= depth
      ensures PrintedOK(prune, vtotals, nprint)
      ensures !waited ==> Exhausted(ctx.D(), AllBelow(ctx.nattr), depth, 0, 0)
      ensures waited <==> prune != PrintAll && nwait > 0 && |dlist| >= nprint + nwait
      ensures waited ==> |dlist| == nprint + nwait
    {
      hide Correct, Guess, Matches, Gain, Domain, Exhausted, Lists, PrintedOK, SearchContext.ContextOK, Accounted,
           Started, BestAt, After;
      nprint, waited := 1, false;
      var vmax := vtotal;
      while true
        invariant Accounted() && ctx.ContextOK() && Started() && Lists(all, Domain(ctx.D(), {}))
            && Lists(tr[..], AllBelow(ctx.nattr))
        invariant |dlist| >= 1 && dlist[0] == old(dlist)[0] && |dlist| - 1 <= total <= |ctx.insts|
        invariant forall k :: 1 <= k < |dlist| ==> BestAt(dlist[..k], dlist[k], depth) && |dlist[k].attr| <= depth
        invariant Printing(prune, nprint, vmax)
        invariant prune != PrintAll && nwait > 0 ==> |dlist| < nprint + nwait
        decreases |ctx.insts| - total
      {
        ghost var list, vts := dlist, vtotals;
        var found := LearnRule(all, tr, depth);
        TotalsFit();
        if !found {
          break;
        }
        RulesStay(list, depth);
        nprint, vmax := NextPrint(prune, nprint, vmax, vts);
        if prune != PrintAll && nwait > 0 && |dlist| - nprint >= nwait {
          waited := true;
          break;
        }
      }
    }

    // The earlier rules are as they were.
    lemma RulesStay(list: seq<Rule>, depth: nat)
      requires |dlist| == |list| + 1 && dlist[..|list|] == list && BestAt(list, dlist[|list|], depth)
      requires |dlist[|list|].attr| <= depth
      requires forall k :: 1 <= k < |list| ==> BestAt(list[..k], list[k], depth) && |list[k].attr| <= depth
      ensures forall k :: 1 <= k < |dlist| ==> BestAt(dlist[..k], dlist[k], depth) && |dlist[k].attr| <= depth
      ensures list != [] ==> dlist[0] == list[0]
    {
      hide BestAt;
      forall k | 0 <= k < |list| ensures dlist[k] == list[k] && dlist[..k] == list[..k] {
        assert dlist[..|list|][k] == list[k] && dlist[..|list|][..k] == dlist[..k];
      }
    }

    lemma TotalsFit()
      requires Accounted()
      ensures 0 <= total <= |ctx.insts| && |vtotals| == |dlist| && (dlist != [] ==> vtotals[|dlist| - 1] == vtotal)
    {
      CorrectBound(ctx.D());
    }

    // The best validation total so far, and the rules printed for it.
    ghost predicate Printing(prune: Prune, nprint: nat, vmax: int)
      reads `vtotals
    {
      PrintedOK(prune, vtotals, nprint) && (prune != PrintAll ==> vmax == vtotals[nprint - 1])
    }

    lemma StartPrinting(prune: Prune)
      requires Accounted() && |dlist| == 1
      ensures Printing(prune, 1, vtotal) && 0 <= total <= |ctx.insts|
    {
      TotalsFit();
    }

    // Whether the list is worth printing up to its last rule.
    method NextPrint(prune: Prune, nprint0: nat, vmax0: int, ghost vts: seq<int>) returns (nprint: nat, vmax: int)
      requires Accounted() && vtotals == vts + [vtotal]
      requires PrintedOK(prune, vts, nprint0) && (prune != PrintAll ==> vmax0 == vts[nprint0 - 1])
      ensures Printing(prune, nprint, vmax) && (nprint == nprint0 || nprint == |dlist|)
    {
      hide Accounted;
      TotalsFit();
      PrintNext(prune, vts, nprint0, vtotal);
      nprint, vmax := nprint0, vmax0;
      if prune == PrintAll || (prune == PrintIfBetter && vtotal > vmax)
          || (prune == PrintIfNotWorse && vtotal >= vmax)
      {
        nprint := |dlist|;
      }
      if vtotal > vmax {
        vmax := vtotal;
      }
    }

    // The depth of the search; 0 means no limit.
    function DepthOf(maxdepth: nat): (depth: nat)
      ensures maxdepth > 0 ==> depth <= maxdepth
      ensures depth < ctx.nattr ==> depth == maxdepth > 0
    {
      if maxdepth == 0 || maxdepth > ctx.nattr then ctx.nattr else maxdepth
    }

    lemma AllAttributes(t: seq<nat>)
      requires t == seq(ctx.nattr, j requires 0 <= j < ctx.nattr => j)
      ensures Lists(t, AllBelow(ctx.nattr))
    {
      forall j: nat | j < ctx.nattr ensures j in t {
        assert t[j] == j;
      }
    }
  }

  /** The rules that are printed: all; or up to the first, or the last, of the rules after which the
      validation set is guessed best. */
  ghost predicate PrintedOK(prune: Prune, vts: seq<int>, nprint: nat) {
    && 1 <= nprint <= |vts|
    && match prune
       case PrintAll => nprint == |vts|
       case PrintIfBetter =>
         forall k :: 0 <= k < |vts| ==> if k < nprint - 1 then vts[k] < vts[nprint - 1] else vts[k] <= vts[nprint - 1]
       case PrintIfNotWorse =>
         forall k :: 0 <= k < |vts| ==> if k > nprint - 1 then vts[k] < vts[nprint - 1] else vts[k] <= vts[nprint - 1]
  }

  lemma PrintNext(prune: Prune, vts: seq<int>, nprint: nat, v: int)
    requires PrintedOK(prune, vts, nprint)
    ensures PrintedOK(prune, vts + [v],
      if prune == PrintAll || (prune == PrintIfBetter && v > vts[nprint - 1])
          || (prune == PrintIfNotWorse && v >= vts[nprint - 1])
      then |vts| + 1 else nprint)
  {
  }

  lemma NothingCorrect(d: Data)
    requires d.guess == seq(|d.insts|, _ => -1)
    ensures Correct(d) == {} && GuessedBy([], d.insts, d.guess)
  {
  }

  lemma SameCorrect(d: Data, e: Data)
    requires e.insts == d.insts && e.guess == d.guess
    ensures Correct(e) == Correct(d)
  {
  }

  lemma SameDomains(d: Data, e: Data)
    requires e.insts == d.insts
    ensures forall A :: Domain(e, A) == Domain(d, A)
  {
  }
}
