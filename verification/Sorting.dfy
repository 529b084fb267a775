/**
 * The contract of Array.prototype.sort for the comparators used here, all of which order their
 * elements by a pair of numbers: first component first, second component on ties.
 */
module Sorting {

  predicate Precedes(a: (int, int), b: (int, int)) {
    a.0 < b.0 || (a.0 == b.0 && a.1 <= b.1)
  }

  predicate SortedBy<T>(s: seq<T>, key: T -> (int, int)) {
    forall i, j :: 0 <= i < j < |s| ==> Precedes(key(s[i]), key(s[j]))
  }

  function Insert<T>(x: T, s: seq<T>, key: T -> (int, int)): (r: seq<T>)
    ensures multiset(r) == multiset(s) + multiset{x}
  {
    if s == [] then [x]
    else if Precedes(key(x), key(s[0])) then [x] + s
    else
      assert s == [s[0]] + s[1..];
      [s[0]] + Insert(x, s[1..], key)
  }

  function Sort<T>(s: seq<T>, key: T -> (int, int)): (r: seq<T>)
    ensures multiset(r) == multiset(s)
  {
    if s == [] then []
    else
      assert s == [s[0]] + s[1..];
      Insert(s[0], Sort(s[1..], key), key)
  }

  lemma {:induction false} SameElement<T>(s: seq<T>, t: seq<T>, x: T)
    requires multiset(s) == multiset(t)
    ensures x in s <==> x in t
  {
    assert x in s <==> x in multiset(s);
    assert x in t <==> x in multiset(t);
  }

  lemma {:induction false} SameElements<T>(s: seq<T>, t: seq<T>)
    requires multiset(s) == multiset(t)
    ensures |s| == |t|
    ensures forall x :: x in s <==> x in t
  {
    assert |multiset(s)| == |s| && |multiset(t)| == |t|;
    forall x
      ensures x in s <==> x in t
    {
      SameElement(s, t, x);
    }
  }

  lemma {:induction false} PrependSorted<T>(y: T, s: seq<T>, key: T -> (int, int))
    requires SortedBy(s, key)
    requires forall z :: z in s ==> Precedes(key(y), key(z))
    ensures SortedBy([y] + s, key)
  {
  }

  lemma {:induction false} InsertSorts<T>(x: T, s: seq<T>, key: T -> (int, int))
    requires SortedBy(s, key)
    ensures SortedBy(Insert(x, s, key), key)
  {
    if s != [] {
      if Precedes(key(x), key(s[0])) {
        PrependSorted(x, s, key);
      } else {
        InsertSorts(x, s[1..], key);
        var t := [x] + s[1..];
        forall z | z in Insert(x, s[1..], key)
          ensures Precedes(key(s[0]), key(z))
        {
          SameElement(t, Insert(x, s[1..], key), z);
          if z != x {
            assert z in s[1..];
          }
        }
        PrependSorted(s[0], Insert(x, s[1..], key), key);
      }
    }
  }

  lemma {:induction false} SortSorts<T>(s: seq<T>, key: T -> (int, int))
    ensures SortedBy(Sort(s, key), key)
    ensures |Sort(s, key)| == |s|
    ensures forall x :: x in s <==> x in Sort(s, key)
  {
    SameElements(s, Sort(s, key));
    if s != [] {
      SortSorts(s[1..], key);
      InsertSorts(s[0], Sort(s[1..], key), key);
    }
  }
}
