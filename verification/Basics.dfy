/** Lists without repetition, exchanging two elements, powers, and laws of products. */
module Basics {

  function Exchanged<T>(s: seq<T>, i: nat, j: nat): seq<T>
    requires i < |s| && j < |s|
  {
    s[i := s[j]][j := s[i]]
  }

  lemma ExchangeMultiset<T>(s: seq<T>, i: nat, j: nat)
    requires i < |s| && j < |s|
    ensures multiset(Exchanged(s, i, j)) == multiset(s)
  {
  }

  ghost predicate Different<T>(s: seq<T>) {
    forall i, j :: 0 <= i < j < |s| ==> s[i] != s[j]
  }

  function Power(b: nat, e: nat): nat {
    if e == 0 then 1 else b * Power(b, e - 1)
  }

  lemma ProductMono(a: nat, b: nat, p: nat)
    requires a <= b
    ensures a * p <= b * p
  {
    assert b * p == a * p + (b - a) * p;
  }

  lemma {:induction false} PowerPositive(b: nat, e: nat)
    requires b > 0
    ensures Power(b, e) > 0
  {
    if e == 0 {
    } else {
      PowerPositive(b, e - 1);
      ProductMono(1, b, Power(b, e - 1));
    }
  }
}
