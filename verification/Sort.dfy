/** The solver's sort: selection sort for short ranges, otherwise a Hoare partition around the
    middle element with sentinel scans. */
module Sorting {
  import opened Basics

  /** "Not after" is total and transitive on S: lt is a strict weak order there. */
  ghost predicate StrictWeak<T(!new)>(lt: (T, T) -> bool, S: multiset<T>) {
    && (forall x, y :: x in S && y in S ==> !lt(x, y) || !lt(y, x))
    && (forall x, y, z :: x in S && y in S && z in S && !lt(y, x) && !lt(z, y) ==> !lt(z, x))
  }

  ghost predicate Sorted<T>(lt: (T, T) -> bool, s: seq<T>) {
    forall i, j :: 0 <= i < j < |s| ==> !lt(s[j], s[i])
  }

  // a agrees with s outside lo..hi.
  ghost predicate SameOutside<T>(a: seq<T>, s: seq<T>, lo: nat, hi: nat) {
    |a| == |s| && forall k :: 0 <= k < |a| && !(lo <= k < hi) ==> a[k] == s[k]
  }

  // a is s with the elements of lo..hi permuted.
  ghost predicate Permuted<T>(a: seq<T>, s: seq<T>, lo: nat, hi: nat) {
    lo <= hi <= |s| && SameOutside(a, s, lo, hi) && multiset(a[lo..hi]) == multiset(s[lo..hi])
  }

  lemma PermutedTrans<T>(a: seq<T>, b: seq<T>, c: seq<T>, lo: nat, hi: nat)
    requires Permuted(a, b, lo, hi) && Permuted(b, c, lo, hi)
    ensures Permuted(a, c, lo, hi)
  {
  }

  lemma ExchangePermuted<T>(s: seq<T>, i: nat, j: nat, lo: nat, hi: nat)
    requires lo <= i < hi <= |s| && lo <= j < hi
    ensures Permuted(Exchanged(s, i, j), s, lo, hi)
  {
    var r := s[lo..hi];
    assert Exchanged(s, i, j)[lo..hi] == Exchanged(r, i - lo, j - lo);
    ExchangeMultiset(r, i - lo, j - lo);
  }

  // A permutation of a part is one of the whole range.
  lemma WidenPermuted<T>(a: seq<T>, s: seq<T>, l: nat, h: nat, lo: nat, hi: nat)
    requires Permuted(a, s, l, h) && lo <= l && h <= hi <= |s|
    ensures Permuted(a, s, lo, hi)
  {
    assert a[lo..hi] == a[lo..l] + a[l..h] + a[h..hi];
    assert s[lo..hi] == s[lo..l] + s[l..h] + s[h..hi];
    assert a[lo..l] == s[lo..l] && a[h..hi] == s[h..hi];
  }

  lemma PermutedFrom<T>(a: seq<T>, s: seq<T>, lo: nat, hi: nat, k: nat)
    requires Permuted(a, s, lo, hi) && lo <= k < hi
    ensures a[k] in multiset(s[lo..hi])
  {
    assert a[k] == a[lo..hi][k - lo];
    assert a[k] in multiset(a[lo..hi]);
  }

  lemma LeastStep<T(!new)>(lt: (T, T) -> bool, S: multiset<T>, s: seq<T>, i: nat, j: nat, b: T, c: T)
    requires StrictWeak(lt, S) && b in S && c in S && lt(c, b) && j <= |s|
    requires forall k :: i <= k < j ==> s[k] in S && !lt(s[k], b)
    ensures !lt(c, c) && forall k :: i <= k < j ==> !lt(s[k], c)
  {
  }

  lemma NotBeforeItself<T(!new)>(lt: (T, T) -> bool, S: multiset<T>, x: T)
    requires StrictWeak(lt, S) && x in S
    ensures !lt(x, x)
  {
  }

  lemma PartElements<T>(a: seq<T>, lo: nat, hi: nat)
    requires lo <= hi <= |a|
    ensures forall k :: lo <= k < hi ==> a[k] in multiset(a[lo..hi])
  {
    forall k | lo <= k < hi ensures a[k] in multiset(a[lo..hi]) {
      assert a[k] == a[lo..hi][k - lo];
    }
  }

  // The least element of i..hi is found.
  method Least<T(!new)>(a: array<T>, i: nat, hi: nat, lt: (T, T) -> bool) returns (best: nat)
    requires i < hi <= a.Length && StrictWeak(lt, multiset(a[i..hi]))
    ensures i <= best < hi && forall k :: i <= k < hi ==> !lt(a[k], a[best])
  {
    hide StrictWeak;
    best := i;
    ghost var S := multiset(a[i..hi]);
    PartElements(a[..], i, hi);
    assert a[i..hi] == a[..][i..hi];
    NotBeforeItself(lt, S, a[i]);
    for j := i + 1 to hi
      invariant i <= best < j
      invariant forall k :: i <= k < j ==> !lt(a[k], a[best])
    {
      if lt(a[j], a[best]) {
        LeastStep(lt, S, a[..], i, j, a[best], a[j]);
      }
      if lt(a[j], a[best]) {
        best := j;
      }
    }
  }

  lemma SelectStep<T(!new)>(a: seq<T>, lo: nat, i: nat, best: nat, hi: nat, lt: (T, T) -> bool)
    requires lo <= i <= best < hi <= |a|
    requires Sorted(lt, a[lo..i])
    requires forall x, y :: lo <= x < i <= y < hi ==> !lt(a[y], a[x])
    requires forall k :: i <= k < hi ==> !lt(a[k], a[best])
    ensures var b := Exchanged(a, i, best);
            Sorted(lt, b[lo..i + 1]) && forall x, y :: lo <= x < i + 1 <= y < hi ==> !lt(b[y], b[x])
  {
    var b := Exchanged(a, i, best);
    forall x, y | lo <= x < y < i + 1 ensures !lt(b[y], b[x]) {
      if y < i {
        assert a[lo..i][x - lo] == a[x] && a[lo..i][y - lo] == a[y];
      }
    }
  }

  method SelectionSort<T(!new)>(a: array<T>, lo: nat, hi: nat, lt: (T, T) -> bool)
    requires lo <= hi <= a.Length && StrictWeak(lt, multiset(a[lo..hi]))
    modifies a
    ensures Permuted(a[..], old(a[..]), lo, hi) && Sorted(lt, a[lo..hi])
  {
    ghost var s := a[..];
    var i := lo;
    while i + 1 < hi
      invariant lo <= i && (i <= hi)
      invariant Permuted(a[..], s, lo, hi)
      invariant Sorted(lt, a[..][lo..i])
      invariant forall x, y :: lo <= x < i <= y < hi ==> !lt(a[..][y], a[..][x])
      decreases hi - i
    {
      SubWeak(lt, a[..], s, lo, hi, i, hi);
      assert a[i..hi] == a[..][i..hi];
      var best := Least(a, i, hi, lt);
      ghost var b := a[..];
      SelectStep(b, lo, i, best, hi, lt);
      ExchangePermuted(b, i, best, lo, hi);
      a[i], a[best] := a[best], a[i];
      assert a[..] == Exchanged(b, i, best);
      PermutedTrans(a[..], b, s, lo, hi);
      i := i + 1;
    }
    SelectEnd(a[..], lo, i, hi, lt, s);
    assert a[lo..hi] == a[..][lo..hi];
    assert s[lo..hi] == old(a[lo..hi]);
  }

  lemma SelectEnd<T(!new)>(a: seq<T>, lo: nat, i: nat, hi: nat, lt: (T, T) -> bool, s: seq<T>)
    requires lo <= i <= hi <= |a| && hi <= i + 1 && Permuted(a, s, lo, hi)
    requires Sorted(lt, a[lo..i])
    requires forall x, y :: lo <= x < i <= y < hi ==> !lt(a[y], a[x])
    ensures Sorted(lt, a[lo..hi])
  {
    forall x, y | lo <= x < y < hi ensures !lt(a[y], a[x]) {
      if y < i {
        assert a[lo..i][x - lo] == a[x] && a[lo..i][y - lo] == a[y];
      }
    }
  }

  // The order is strict weak on any part of a permutation.
  lemma SubWeak<T(!new)>(lt: (T, T) -> bool, a: seq<T>, s: seq<T>, lo: nat, hi: nat, l: nat, h: nat)
    requires Permuted(a, s, lo, hi) && StrictWeak(lt, multiset(s[lo..hi])) && lo <= l <= h <= hi
    ensures StrictWeak(lt, multiset(a[l..h]))
  {
    assert a[lo..hi] == a[lo..l] + a[l..h] + a[h..hi];
    forall x | x in multiset(a[l..h]) ensures x in multiset(s[lo..hi]) {
      assert x in multiset(a[lo..hi]);
    }
  }

  // ---------- the Hoare partition ----------

  /** i and j are the last indices the scans stopped at: up to i nothing is above the pivot,
      from j on nothing is below it. */
  ghost predicate Parting<T(!new)>(lt: (T, T) -> bool, a: seq<T>, lo: nat, hi: nat, i: int, j: int, pivot: T) {
    && lo - 1 <= i < j <= hi <= |a|
    && (forall k :: lo <= k <= i ==> !lt(pivot, a[k]))
    && (forall k :: j <= k < hi ==> !lt(a[k], pivot))
  }

  // Each scan will stop before it leaves lo..hi.
  ghost predicate Sentinels<T(!new)>(lt: (T, T) -> bool, a: seq<T>, lo: nat, hi: nat, i: int, j: int, pivot: T,
          m: int)
  {
    if j == hi then i == lo - 1 && lo < m < hi <= |a| && a[m] == pivot else lo <= i < j < hi
  }

  lemma PartStart<T(!new)>(lt: (T, T) -> bool, s: seq<T>, lo: nat, hi: nat, m: nat)
    requires lo < m < hi <= |s| && StrictWeak(lt, multiset(s[lo..hi]))
    ensures Permuted(s, s, lo, hi) && s[m] in multiset(s[lo..hi]) && !lt(s[m], s[m])
  {
    PermutedFrom(s, s, lo, hi, m);
  }

  method ScanUp<T(!new)>(a: array<T>, lo: nat, hi: nat, lt: (T, T) -> bool, i: int, ghost stop: int, pivot: T)
    returns (k: nat)
    requires lo - 1 <= i < stop < hi <= a.Length && !lt(a[stop], pivot)
    ensures i < k <= stop && !lt(a[k], pivot) && forall x :: i < x < k ==> lt(a[x], pivot)
  {
    k := i + 1;
    while lt(a[k], pivot)
      invariant i < k <= stop && forall x :: i < x < k ==> lt(a[x], pivot)
      decreases stop - k
    {
      k := k + 1;
    }
  }

  method ScanDown<T(!new)>(a: array<T>, lo: nat, hi: nat, lt: (T, T) -> bool, j: int, ghost stop: int, pivot: T)
    returns (k: nat)
    requires lo <= stop < j <= hi <= a.Length && !lt(pivot, a[stop])
    ensures stop <= k < j && !lt(pivot, a[k]) && forall x :: k < x < j ==> lt(pivot, a[x])
  {
    k := j - 1;
    while lt(pivot, a[k])
      invariant stop <= k < j && forall x :: k < x < j ==> lt(pivot, a[x])
      decreases k
    {
      k := k - 1;
    }
  }

  // Elements the scans passed are on the right side of the pivot.
  lemma Scanned<T(!new)>(lt: (T, T) -> bool, S: multiset<T>, a: seq<T>, lo: nat, hi: nat, i: int, j: int, i': nat,
          j': nat, pivot: T)
    requires Parting(lt, a, lo, hi, i, j, pivot) && StrictWeak(lt, S) && pivot in S
    requires forall k :: lo <= k < hi ==> a[k] in S
    requires i < i' < hi && lo <= j' < j
    requires !lt(a[i'], pivot) && forall x :: i < x < i' ==> lt(a[x], pivot)
    requires !lt(pivot, a[j']) && forall x :: j' < x < j ==> lt(pivot, a[x])
    ensures forall k :: lo <= k < i' ==> !lt(pivot, a[k])
    ensures forall k :: j' < k < hi ==> !lt(a[k], pivot)
    ensures i' >= j' ==> forall k :: i' <= k < hi ==> !lt(a[k], pivot)
  {
  }

  lemma PartFacts<T(!new)>(lt: (T, T) -> bool, a: seq<T>, s: seq<T>, lo: nat, hi: nat, i: int, j: int, i': nat,
          j': nat, pivot: T)
    requires Parting(lt, a, lo, hi, i, j, pivot) && i < i' < hi && lo <= j' < j
    requires Permuted(a, s, lo, hi) && StrictWeak(lt, multiset(s[lo..hi])) && pivot in multiset(s[lo..hi])
    requires !lt(a[i'], pivot) && forall x :: i < x < i' ==> lt(a[x], pivot)
    requires !lt(pivot, a[j']) && forall x :: j' < x < j ==> lt(pivot, a[x])
    ensures forall k :: lo <= k < i' ==> !lt(pivot, a[k])
    ensures forall k :: j' < k < hi ==> !lt(a[k], pivot)
    ensures i' >= j' ==> forall k :: i' <= k < hi ==> !lt(a[k], pivot)
  {
    hide StrictWeak;
    var S := multiset(s[lo..hi]);
    forall k | lo <= k < hi ensures a[k] in S { PermutedFrom(a, s, lo, hi, k); }
    Scanned(lt, S, a, lo, hi, i, j, i', j', pivot);
  }

  // The scans have not crossed: the two elements change places.
  lemma PartNext<T(!new)>(lt: (T, T) -> bool, a: seq<T>, s: seq<T>, lo: nat, hi: nat, i': nat, j': nat, pivot: T,
          m: int)
    requires lo <= i' < j' < hi <= |a| && Permuted(a, s, lo, hi)
    requires !lt(a[i'], pivot) && !lt(pivot, a[j'])
    requires forall k :: lo <= k < i' ==> !lt(pivot, a[k])
    requires forall k :: j' < k < hi ==> !lt(a[k], pivot)
    ensures var b := Exchanged(a, i', j');
            Permuted(b, s, lo, hi) && Parting(lt, b, lo, hi, i', j', pivot)
                && Sentinels(lt, b, lo, hi, i', j', pivot, m)
  {
    ExchangePermuted(a, i', j', lo, hi);
    PermutedTrans(Exchanged(a, i', j'), a, s, lo, hi);
  }

  /** Splits lo..hi at an inner index: nothing before it is above the pivot, nothing from it on
      is below. */
  method Partition<T(!new)>(a: array<T>, lo: nat, hi: nat, lt: (T, T) -> bool) returns (i: nat, ghost pivot: T)
    requires lo + 2 <= hi <= a.Length && StrictWeak(lt, multiset(a[lo..hi]))
    modifies a
    ensures Permuted(a[..], old(a[..]), lo, hi) && lo < i < hi
    ensures pivot in multiset(old(a[lo..hi]))
    ensures forall k :: lo <= k < i ==> !lt(pivot, a[k])
    ensures forall k :: i <= k < hi ==> !lt(a[k], pivot)
  {
    ghost var s := a[..];
    ghost var S := multiset(s[lo..hi]);
    assert s[lo..hi] == a[lo..hi];
    hide Permuted, StrictWeak;
    var m := lo + (hi - lo) / 2;
    var p := a[m];
    pivot := p;
    PartStart(lt, s, lo, hi, m);
    var l: int, r: int := lo - 1, hi;
    while true
      invariant Permuted(a[..], s, lo, hi)
      invariant Parting(lt, a[..], lo, hi, l, r, p) && Sentinels(lt, a[..], lo, hi, l, r, p, m)
      decreases r
    {
      var i' := ScanUp(a, lo, hi, lt, l, if r == hi then m else r, p);
      var j' := ScanDown(a, lo, hi, lt, r, if r == hi then m else l, p);
      ghost var b := a[..];
      PartFacts(lt, b, s, lo, hi, l, r, i', j', p);
      if i' >= j' {
        return i', p;
      }
      PartNext(lt, b, s, lo, hi, i', j', p, m);
      a[i'], a[j'] := a[j'], a[i'];
      assert a[..] == Exchanged(b, i', j');
      l, r := i', j';
    }
  }

  lemma JoinSorted<T(!new)>(lt: (T, T) -> bool, S: multiset<T>, a: seq<T>, lo: nat, i: nat, hi: nat, pivot: T)
    requires lo <= i <= hi <= |a| && StrictWeak(lt, S) && pivot in S
    requires forall k :: lo <= k < hi ==> a[k] in S
    requires forall k :: lo <= k < i ==> !lt(pivot, a[k])
    requires forall k :: i <= k < hi ==> !lt(a[k], pivot)
    requires Sorted(lt, a[lo..i]) && Sorted(lt, a[i..hi])
    ensures Sorted(lt, a[lo..hi])
  {
    forall x, y | lo <= x < y < hi ensures !lt(a[y], a[x]) {
      if y < i {
        assert a[lo..i][x - lo] == a[x] && a[lo..i][y - lo] == a[y];
      } else if x >= i {
        assert a[i..hi][x - i] == a[x] && a[i..hi][y - i] == a[y];
      }
    }
  }

  // Permuting l..h keeps what is known of each of its elements.
  lemma SideKept<T(!new)>(a: seq<T>, s: seq<T>, l: nat, h: nat, P: T -> bool)
    requires Permuted(a, s, l, h) && forall k :: l <= k < h ==> P(s[k])
    ensures forall k :: l <= k < h ==> P(a[k])
  {
    forall k | l <= k < h ensures P(a[k]) {
      PermutedFrom(a, s, l, h, k);
      var m :| 0 <= m < |s[l..h]| && s[l..h][m] == a[k];
      assert s[l..h][m] == s[l + m];
    }
  }

  /** Sorts lo..hi of a by any strict weak order. */
  method Sort<T(!new)>(a: array<T>, lo: nat, hi: nat, lt: (T, T) -> bool)
    requires lo <= hi <= a.Length && StrictWeak(lt, multiset(a[lo..hi]))
    modifies a
    ensures Permuted(a[..], old(a[..]), lo, hi) && Sorted(lt, a[lo..hi])
    decreases hi - lo
  {
    if hi - lo <= 15 {
      SelectionSort(a, lo, hi, lt);
    } else {
      ghost var s := a[..];
      assert s[lo..hi] == a[lo..hi];
      var i, pivot := Partition(a, lo, hi, lt);
      SortHalves(a, lo, i, hi, lt, s, pivot);
    }
  }

  method SortHalves<T(!new)>(a: array<T>, lo: nat, i: nat, hi: nat, lt: (T, T) -> bool, ghost s: seq<T>, ghost pivot: T)
    requires lo < i < hi <= a.Length && Permuted(a[..], s, lo, hi) && StrictWeak(lt, multiset(s[lo..hi]))
    requires pivot in multiset(s[lo..hi])
    requires forall k :: lo <= k < i ==> !lt(pivot, a[k])
    requires forall k :: i <= k < hi ==> !lt(a[k], pivot)
    modifies a
    ensures Permuted(a[..], s, lo, hi) && Sorted(lt, a[lo..hi])
    decreases hi - lo, 0
  {
    ghost var b := a[..];
    SubWeak(lt, b, s, lo, hi, lo, i);
    assert a[lo..i] == b[lo..i];
    Sort(a, lo, i, lt);
    ghost var c := a[..];
    WidenPermuted(c, b, lo, i, lo, hi);
    PermutedTrans(c, b, s, lo, hi);
    SubWeak(lt, c, s, lo, hi, i, hi);
    assert a[i..hi] == c[i..hi];
    Sort(a, i, hi, lt);
    HalvesSorted(lt, a[..], c, b, s, lo, i, hi, pivot);
    assert a[lo..hi] == a[..][lo..hi];
  }

  lemma HalvesSorted<T(!new)>(lt: (T, T) -> bool, a: seq<T>, c: seq<T>, b: seq<T>, s: seq<T>, lo: nat, i: nat, hi: nat,
          pivot: T)
    requires lo < i < hi <= |a| == |s| && StrictWeak(lt, multiset(s[lo..hi])) && pivot in multiset(s[lo..hi])
    requires Permuted(c, b, lo, i) && Permuted(a, c, i, hi) && Permuted(c, s, lo, hi)
    requires forall k :: lo <= k < i ==> !lt(pivot, b[k])
    requires forall k :: i <= k < hi ==> !lt(b[k], pivot)
    requires Sorted(lt, c[lo..i]) && Sorted(lt, a[i..hi])
    ensures Permuted(a, s, lo, hi) && Sorted(lt, a[lo..hi])
  {
    WidenPermuted(a, c, i, hi, lo, hi);
    PermutedTrans(a, c, s, lo, hi);
    SideKept(c, b, lo, i, x => !lt(pivot, x));
    SideKept(a, c, i, hi, x => !lt(x, pivot));
    assert a[lo..i] == c[lo..i];
    forall k | lo <= k < hi ensures a[k] in multiset(s[lo..hi]) { PermutedFrom(a, s, lo, hi, k); }
    JoinSorted(lt, multiset(s[lo..hi]), a, lo, i, hi, pivot);
  }
}
