/** Why a search without restarts ends: read as the digits of a number, the free room of the
    decision levels goes down with every decision and every backjump. */
module SatMeasure {
  import opened Basics
  import opened SatTypes
  import opened SatCore
  import opened SatSteps

  // The number of literals of level i when the trail has m literals.
  function LevelSize(lim: seq<nat>, m: nat, i: nat): int
    requires i <= |lim|
  {
    (if i == |lim| then m else lim[i]) - (if i == 0 then 0 else lim[i - 1])
  }

  // The digit of level i: the room left in it, or more than that if it does not exist.
  function Digit(lim: seq<nat>, m: nat, n: nat, i: nat): nat {
    if i > |lim| then n + 1
    else if 0 <= LevelSize(lim, m, i) <= n then n - LevelSize(lim, m, i) else n + 1
  }

  // The number with the digits of levels i, i+1, ..., i+k-1 in base n + 2.
  function Number(lim: seq<nat>, m: nat, n: nat, i: nat, k: nat): nat
    decreases k
  {
    if k == 0 then 0
    else Digit(lim, m, n, i) * Power(n + 2, k - 1) + Number(lim, m, n, i + 1, k - 1)
  }

  lemma MulLess(a: nat, b: nat, p: nat, c: nat)
    requires a < b && c < p
    ensures a * p + c < b * p
  {
    assert a * p + p == (a + 1) * p;
    ProductMono(a + 1, b, p);
  }

  lemma {:induction false} NumberBound(lim: seq<nat>, m: nat, n: nat, i: nat, k: nat)
    ensures Number(lim, m, n, i, k) < Power(n + 2, k)
    decreases k
  {
    if k == 0 {
    } else {
      NumberBound(lim, m, n, i + 1, k - 1);
      MulLess(Digit(lim, m, n, i), n + 2, Power(n + 2, k - 1), Number(lim, m, n, i + 1, k - 1));
    }
  }

  // lim', m' compares with lim, m below in the first digit, from level i on, that differs.
  ghost predicate Lower(lim: seq<nat>, m: nat, lim': seq<nat>, m': nat, n: nat, i: nat, at: nat) {
    && i <= at && Digit(lim', m', n, at) < Digit(lim, m, n, at)
    && forall j :: i <= j < at ==> Digit(lim', m', n, j) == Digit(lim, m, n, j)
  }

  lemma {:induction false} LowerNumber(lim: seq<nat>, m: nat, lim': seq<nat>, m': nat, n: nat, i: nat, k: nat, at: nat)
    requires Lower(lim, m, lim', m', n, i, at) && at < i + k
    ensures Number(lim', m', n, i, k) < Number(lim, m, n, i, k)
    decreases k
  {
    var p := Power(n + 2, k - 1);
    if i == at {
      NumberBound(lim', m', n, i + 1, k - 1);
      MulLess(Digit(lim', m', n, i), Digit(lim, m, n, i), p, Number(lim', m', n, i + 1, k - 1));
    } else {
      LowerNumber(lim, m, lim', m', n, i + 1, k - 1, at);
    }
  }

  lemma {:induction false} SameNumber(lim: seq<nat>, m: nat, lim': seq<nat>, m': nat, n: nat, i: nat, k: nat)
    requires forall j :: i <= j < i + k ==> Digit(lim', m', n, j) == Digit(lim, m, n, j)
    ensures Number(lim', m', n, i, k) == Number(lim, m, n, i, k)
    decreases k
  {
    if k == 0 {
    } else {
      SameNumber(lim, m, lim', m', n, i + 1, k - 1);
    }
  }

  /** The measure of a search with the given number of assumptions. */
  ghost function Measure(t: TrailState, assumed: nat): nat {
    Number(t.lim, |t.trail|, |t.assigns|, 0, |t.assigns| + assumed + 1)
  }

  // Beyond the assumptions every level holds a literal.
  ghost predicate LevelsFilled(t: TrailState, assumed: nat) {
    forall i :: assumed < i <= |t.lim| ==> LevelSize(t.lim, |t.trail|, i) > 0
  }

  lemma {:induction false} FilledLength(t: TrailState, assumed: nat, k: nat)
    requires TrailOK(t) && LevelsFilled(t, assumed) && k <= |t.lim|
    ensures k <= assumed + (if k == |t.lim| then |t.trail| else t.lim[k])
    decreases k
  {
    if k <= assumed {
    } else {
      FilledLength(t, assumed, k - 1);
      assert LevelSize(t.lim, |t.trail|, k) > 0;
    }
  }

  lemma LevelBound(t: TrailState, assumed: nat)
    requires TrailOK(t) && LevelsFilled(t, assumed)
    ensures |t.lim| <= |t.assigns| + assumed
  {
    FilledLength(t, assumed, |t.lim|);
    TrailBound(t);
  }

  // Adding literals to the last level does not raise the measure.
  lemma GrowMeasure(t: TrailState, u: TrailState, assumed: nat)
    requires TrailOK(t) && TrailOK(u) && u.lim == t.lim && |u.assigns| == |t.assigns| && |t.trail| <= |u.trail|
    requires LevelsFilled(t, assumed)
    ensures Measure(u, assumed) <= Measure(t, assumed) && LevelsFilled(u, assumed)
  {
    var n, k := |t.assigns|, |t.assigns| + assumed + 1;
    LevelBound(t, assumed);
    TrailBound(u);
    SizesFit(t);
    SizesFit(u);
    if |u.trail| == |t.trail| {
      SameNumber(t.lim, |t.trail|, u.lim, |u.trail|, n, 0, k);
    } else {
      LowerNumber(t.lim, |t.trail|, u.lim, |u.trail|, n, 0, k, |t.lim|);
    }
    forall i | assumed < i <= |u.lim| ensures LevelSize(u.lim, |u.trail|, i) > 0 {
      assert LevelSize(t.lim, |t.trail|, i) > 0;
    }
  }

  lemma SizesFit(t: TrailState)
    requires TrailOK(t)
    ensures forall i :: 0 <= i <= |t.lim| ==> 0 <= LevelSize(t.lim, |t.trail|, i) <= |t.assigns|
  {
    TrailBound(t);
  }

  /** Opening a level lowers the measure. */
  lemma OpenMeasure(t: TrailState, assumed: nat)
    requires TrailOK(t) && LevelsFilled(t, assumed) && |t.lim| < |t.assigns| + assumed
    ensures Measure(Opened(t), assumed) < Measure(t, assumed)
  {
    var u := Opened(t);
    SizesFit(t);
    LowerNumber(t.lim, |t.trail|, u.lim, |u.trail|, |t.assigns|, 0, |t.assigns| + assumed + 1, |t.lim| + 1);
  }

  /** A backjump that adds a literal to an earlier level lowers the measure. */
  lemma BackjumpMeasure(t: TrailState, level: nat, p: Lit, cr: CRef, assumed: nat)
    requires TrailOK(t) && LevelsFilled(t, assumed) && level < |t.lim| && t.lim[level] <= |t.trail|
    requires p.v < |t.assigns| && Cancelled(t, level).Val(p) == Undef
    ensures |t.vardata| == |t.pos| == |t.assigns|
    ensures var u := Enqueued(Cancelled(t, level), p, cr);
            Measure(u, assumed) < Measure(t, assumed) && LevelsFilled(u, assumed)
  {
    var u := Enqueued(Cancelled(t, level), p, cr);
    CancelTrail(t, level);
    EnqueueTrail(Cancelled(t, level), p, cr);
    SizesFit(t);
    SizesFit(u);
    LevelBound(t, assumed);
    LowerNumber(t.lim, |t.trail|, u.lim, |u.trail|, |t.assigns|, 0, |t.assigns| + assumed + 1, level);
    forall i | assumed < i <= |u.lim| ensures LevelSize(u.lim, |u.trail|, i) > 0 {
      assert LevelSize(t.lim, |t.trail|, i) > 0;
    }
  }

  lemma MeasureBound(t: TrailState, assumed: nat)
    ensures Measure(t, assumed) < Power(|t.assigns| + 2, |t.assigns| + assumed + 1)
  {
    NumberBound(t.lim, |t.trail|, |t.assigns|, 0, |t.assigns| + assumed + 1);
  }

  // A level for an assumption that already holds may stay empty.
  lemma DummyFilled(t: TrailState, assumed: nat)
    requires LevelsFilled(t, assumed) && |t.lim| < assumed
    ensures LevelsFilled(Opened(t), assumed)
  {
  }

  lemma DecideMeasure(t: TrailState, p: Lit, assumed: nat)
    requires TrailOK(t) && LevelsFilled(t, assumed) && p.v < |t.assigns| && t.Val(p) == Undef
    ensures |t.vardata| == |t.pos| == |t.assigns|
    ensures var u := Enqueued(Opened(t), p, CREF_UNDEF);
            Measure(u, assumed) < Measure(t, assumed) && LevelsFilled(u, assumed)
  {
    var u := Enqueued(Opened(t), p, CREF_UNDEF);
    FilledLength(t, assumed, |t.lim|);
    SizesFit(t);
    assert |t.trail| < |t.assigns| by {
      EnqueueTrail(t, p, CREF_UNDEF);
      TrailBound(Enqueued(t, p, CREF_UNDEF));
    }
    LowerNumber(t.lim, |t.trail|, u.lim, |u.trail|, |t.assigns|, 0, |t.assigns| + assumed + 1, |t.lim| + 1);
    forall i | assumed < i <= |u.lim| ensures LevelSize(u.lim, |u.trail|, i) > 0 {
      if i <= |t.lim| { assert LevelSize(t.lim, |t.trail|, i) > 0; }
    }
  }
}
