/** Sizes of finite sets. */
module SetSizes {

  lemma {:induction false} SubsetSize<X>(a: set<X>, b: set<X>)
    requires a <= b
    ensures |a| <= |b|
  {
    if a == {} {
    } else {
      var x :| x in a;
      SubsetSize(a - {x}, b - {x});
    }
  }

  // The first n numbers.
  ghost function AllBelow(n: nat): (s: set<nat>)
    ensures |s| == n
    ensures forall v :: 0 <= v < n ==> v in s
    ensures forall v :: v in s ==> v < n
  {
    if n == 0 then {} else AllBelow(n - 1) + {n - 1}
  }

  // The elements of a list.
  ghost function SetOf<X>(s: seq<X>): set<X> {
    set x | x in s
  }

  // s lists the elements of S, each once.
  ghost predicate Lists<X(!new)>(s: seq<X>, S: set<X>) {
    && (forall i, j :: 0 <= i < j < |s| ==> s[i] != s[j])
    && (forall x :: x in s <==> x in S)
  }

  lemma {:induction false} ListSize<X(!new)>(s: seq<X>, S: set<X>)
    requires Lists(s, S)
    ensures |s| == |S|
  {
    if s == [] {
      assert S == {};
    } else {
      var t, x := s[..|s| - 1], s[|s| - 1];
      assert s == t + [x];
      assert forall i :: 0 <= i < |t| ==> t[i] == s[i];
      ListSize(t, S - {x});
    }
  }

  lemma {:induction false} CountDistinct<X>(s: seq<X>)
    requires forall i, j :: 0 <= i < j < |s| ==> s[i] != s[j]
    ensures forall x :: multiset(s)[x] <= 1
  {
    if s == [] {
    } else {
      CountDistinct(s[1..]);
      assert s == [s[0]] + s[1..];
      assert s[0] !in s[1..];
    }
  }

  lemma DistinctCount<X>(s: seq<X>, i: nat, j: nat)
    requires i < j < |s| && forall x :: multiset(s)[x] <= 1
    ensures s[i] != s[j]
  {
    assert s == s[..j] + s[j..];
    assert s[i] == s[..j][i] && s[j] == s[j..][0];
    assert multiset(s) == multiset(s[..j]) + multiset(s[j..]);
    assert s[i] in multiset(s[..j]) && s[j] in multiset(s[j..]);
    assert multiset(s)[s[j]] == multiset(s[..j])[s[j]] + multiset(s[j..])[s[j]];
    assert multiset(s)[s[j]] <= 1;
  }

  /** A permutation of a list lists the same set. */
  lemma PermutedLists<X(!new)>(s: seq<X>, t: seq<X>, S: set<X>)
    requires Lists(s, S) && multiset(t) == multiset(s)
    ensures Lists(t, S)
  {
    CountDistinct(s);
    forall i, j | 0 <= i < j < |t| ensures t[i] != t[j] {
      DistinctCount(t, i, j);
    }
    forall x ensures x in t <==> x in S {
      assert x in t <==> x in multiset(t);
      assert x in s <==> x in multiset(s);
    }
  }
}
