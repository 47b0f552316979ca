/** Sorting by a caller-supplied "less or equal". Python's `sorted` and pandas'
    `sort_values` are library calls in the source; this module gives them one
    reference definition, insertion sort, and proves what the callers rely on:
    the result is a permutation of the input and is ordered. */
module Sorting {

  /** `leq` is total and transitive, so sorting by it is meaningful. */
  ghost predicate TotalPreorder<T(!new)>(leq: (T, T) -> bool)
  {
    && (forall a, b :: leq(a, b) || leq(b, a))
    && (forall a, b, c :: leq(a, b) && leq(b, c) ==> leq(a, c))
  }

  /** Every earlier element is `leq` every later one. */
  ghost predicate SortedBy<T>(s: seq<T>, leq: (T, T) -> bool)
  {
    forall i, j :: 0 <= i < j < |s| ==> leq(s[i], s[j])
  }

  /** Puts `x` before the first element it is `leq` to. */
  function Insert<T>(x: T, s: seq<T>, leq: (T, T) -> bool): (r: seq<T>)
    ensures multiset(r) == multiset(s) + multiset{x}
  {
    if s == [] then [x]
    else if leq(x, s[0]) then [x] + s
    else
      assert s == [s[0]] + s[1..];
      [s[0]] + Insert(x, s[1..], leq)
  }

  function InsertionSort<T>(s: seq<T>, leq: (T, T) -> bool): (r: seq<T>)
    ensures multiset(r) == multiset(s)
  {
    if s == [] then []
    else
      assert s == [s[0]] + s[1..];
      Insert(s[0], InsertionSort(s[1..], leq), leq)
  }

  lemma {:induction false} InsertSorted<T(!new)>(x: T, s: seq<T>, leq: (T, T) -> bool)
    requires TotalPreorder(leq)
    requires SortedBy(s, leq)
    ensures SortedBy(Insert(x, s, leq), leq)
  {
    if s != [] && !leq(x, s[0]) {
      assert leq(s[0], x);
      InsertSorted(x, s[1..], leq);
      var r := Insert(x, s, leq);
      var tail := Insert(x, s[1..], leq);
      assert r == [s[0]] + tail;
      forall k | 0 <= k < |tail|
        ensures leq(s[0], tail[k])
      {
        assert tail[k] in multiset(tail);
        assert tail[k] == x || tail[k] in multiset(s[1..]);
      }
    }
  }

  /** Insertion sort returns an ordered permutation of its input. */
  lemma {:induction false} InsertionSortSorted<T(!new)>(s: seq<T>, leq: (T, T) -> bool)
    requires TotalPreorder(leq)
    ensures SortedBy(InsertionSort(s, leq), leq)
    ensures multiset(InsertionSort(s, leq)) == multiset(s)
  {
    if s != [] {
      InsertionSortSorted(s[1..], leq);
      InsertSorted(s[0], InsertionSort(s[1..], leq), leq);
    }
  }

  lemma TailMultiset<T>(s: seq<T>)
    requires s != []
    ensures multiset(s[1..]) == multiset(s) - multiset{s[0]}
  {
    assert s == [s[0]] + s[1..];
  }

  /** Two ordered lists holding the same elements are equal when `leq` is
      antisymmetric: the sorted order does not depend on the input order. */
  lemma {:induction false} SortedUnique<T(!new)>(a: seq<T>, b: seq<T>, leq: (T, T) -> bool)
    requires forall x, y :: leq(x, y) && leq(y, x) ==> x == y
    requires SortedBy(a, leq) && SortedBy(b, leq)
    requires multiset(a) == multiset(b)
    ensures a == b
  {
    if a == [] || b == [] {
      assert |a| == |multiset(a)| == |multiset(b)| == |b|;
    } else {
      SortedHeads(a, b, leq);
      TailMultiset(a);
      TailMultiset(b);
      SortedTail(a, leq);
      SortedTail(b, leq);
      SortedUnique(a[1..], b[1..], leq);
      assert a == [a[0]] + a[1..] && b == [b[0]] + b[1..];
    }
  }

  lemma SortedTail<T>(s: seq<T>, leq: (T, T) -> bool)
    requires SortedBy(s, leq) && s != []
    ensures SortedBy(s[1..], leq)
  {
    forall i, j | 0 <= i < j < |s| - 1
      ensures leq(s[1..][i], s[1..][j])
    {
      assert s[1..][i] == s[i + 1] && s[1..][j] == s[j + 1];
    }
  }


  /** Two ordered lists holding the same elements start with the same one. */
  lemma SortedHeads<T>(a: seq<T>, b: seq<T>, leq: (T, T) -> bool)
    requires forall x, y :: leq(x, y) && leq(y, x) ==> x == y
    requires SortedBy(a, leq) && SortedBy(b, leq)
    requires multiset(a) == multiset(b) && a != [] && b != []
    ensures a[0] == b[0]
  {
    assert b[0] in multiset(a) && a[0] in multiset(b);
    var i :| 0 <= i < |a| && a[i] == b[0];
    var j :| 0 <= j < |b| && b[j] == a[0];
    if i > 0 && j > 0 {
      assert leq(a[0], a[i]) && leq(b[0], b[j]);
    }
  }

}
