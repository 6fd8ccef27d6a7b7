/** Stable insertion sort over an arbitrary comparison, standing in for
    Python's `sorted` on strings and xarray's `sortby` (both stable). */
module Sorting {

  /** `le` compares any two elements and chains. */
  ghost predicate TotalPreorder<T(!new)>(le: (T, T) -> bool) {
    && (forall a, b :: le(a, b) || le(b, a))
    && (forall a, b, c :: le(a, b) && le(b, c) ==> le(a, c))
  }

  predicate Sorted<T>(s: seq<T>, le: (T, T) -> bool) {
    forall i, j :: 0 <= i < j < |s| ==> le(s[i], s[j])
  }

  /** Sorted by `le` first and, among elements `le` cannot tell apart, by
      `tie`. */
  predicate SortedThen<T>(s: seq<T>, le: (T, T) -> bool, tie: (T, T) -> bool) {
    forall i, j :: 0 <= i < j < |s| ==> le(s[i], s[j]) && (le(s[j], s[i]) ==> tie(s[i], s[j]))
  }

  /** Puts `x` in front of the first element it does not exceed, so `x`
      lands before the elements equal to it. */
  function Insert<T(==)>(x: T, s: seq<T>, le: (T, T) -> bool): (r: seq<T>)
    ensures multiset(r) == multiset(s) + multiset{x}
  {
    if |s| == 0 || le(x, s[0]) then [x] + s
    else
      assert s == [s[0]] + s[1..];
      [s[0]] + Insert(x, s[1..], le)
  }

  /** Insertion sort: the head of the list is inserted into the sorted
      tail, so of two equal elements the earlier one stays earlier. */
  function Sort<T(==)>(s: seq<T>, le: (T, T) -> bool): (r: seq<T>)
    ensures multiset(r) == multiset(s)
    ensures |r| == |s|
  {
    if |s| == 0 then []
    else
      assert s == [s[0]] + s[1..];
      Insert(s[0], Sort(s[1..], le), le)
  }

  lemma {:induction false} InsertSortedThen<T(!new)>(x: T, s: seq<T>, le: (T, T) -> bool, tie: (T, T) -> bool)
    requires TotalPreorder(le)
    requires SortedThen(s, le, tie)
    requires forall i :: 0 <= i < |s| ==> tie(x, s[i])
    ensures SortedThen(Insert(x, s, le), le, tie)
  {
    if |s| == 0 || le(x, s[0]) {
      var r := [x] + s;
      forall i, j | 0 <= i < j < |r|
        ensures le(r[i], r[j]) && (le(r[j], r[i]) ==> tie(r[i], r[j]))
      {
        if i == 0 {
          assert r[j] == s[j - 1];
          assert le(s[0], s[j - 1]) || j == 1;
        } else {
          assert r[i] == s[i - 1] && r[j] == s[j - 1];
        }
      }
    } else {
      var rest := Insert(x, s[1..], le);
      InsertSortedThen(x, s[1..], le, tie);
      var r := [s[0]] + rest;
      InsertHeadBound(x, s, le, tie);
      forall i, j | 0 <= i < j < |r|
        ensures le(r[i], r[j]) && (le(r[j], r[i]) ==> tie(r[i], r[j]))
      {
        if i == 0 {
          assert r[j] == rest[j - 1];
        } else {
          assert r[i] == rest[i - 1] && r[j] == rest[j - 1];
        }
      }
    }
  }

  /** When `x` goes after the head, the head still comes first in the
      result of inserting `x` into the tail. */
  lemma InsertHeadBound<T(!new)>(x: T, s: seq<T>, le: (T, T) -> bool, tie: (T, T) -> bool)
    requires TotalPreorder(le)
    requires SortedThen(s, le, tie)
    requires forall i :: 0 <= i < |s| ==> tie(x, s[i])
    requires |s| > 0 && !le(x, s[0])
    ensures forall k :: 0 <= k < |Insert(x, s[1..], le)| ==>
      le(s[0], Insert(x, s[1..], le)[k]) && (le(Insert(x, s[1..], le)[k], s[0]) ==> tie(s[0], Insert(x, s[1..], le)[k]))
  {
    var rest := Insert(x, s[1..], le);
    assert le(s[0], x);
    forall k | 0 <= k < |rest|
      ensures le(s[0], rest[k]) && (le(rest[k], s[0]) ==> tie(s[0], rest[k]))
    {
      assert rest[k] in multiset(rest);
      if rest[k] == x {
        assert !le(x, s[0]);
      } else {
        assert rest[k] in multiset(s[1..]);
        var m :| 0 <= m < |s[1..]| && s[1..][m] == rest[k];
        assert s[m + 1] == rest[k];
      }
    }
  }

  /** Sorting a list already ordered by `tie` with a stable sort by `le`
      orders it by `le` and keeps equal elements in their `tie` order. */
  lemma {:induction false} SortStable<T(!new)>(s: seq<T>, le: (T, T) -> bool, tie: (T, T) -> bool)
    requires TotalPreorder(le)
    requires Sorted(s, tie)
    ensures SortedThen(Sort(s, le), le, tie)
  {
    if |s| > 0 {
      var tail := Sort(s[1..], le);
      SortStable(s[1..], le, tie);
      forall i | 0 <= i < |tail|
        ensures tie(s[0], tail[i])
      {
        assert tail[i] in multiset(s[1..]);
        var m :| 0 <= m < |s[1..]| && s[1..][m] == tail[i];
        assert s[m + 1] == tail[i];
      }
      InsertSortedThen(s[0], tail, le, tie);
    }
  }

  /** The result of `Sort` is ordered by `le`. */
  lemma SortSorted<T(!new)>(s: seq<T>, le: (T, T) -> bool)
    requires TotalPreorder(le)
    ensures Sorted(Sort(s, le), le)
  {
    var any := (a: T, b: T) => true;
    SortStable(s, le, any);
  }

  /** A list already in order comes back unchanged. */
  lemma {:induction false} SortOfSorted<T>(s: seq<T>, le: (T, T) -> bool)
    requires Sorted(s, le)
    ensures Sort(s, le) == s
  {
    if |s| > 0 {
      assert Sorted(s[1..], le) by {
        forall i, j | 0 <= i < j < |s[1..]| ensures le(s[1..][i], s[1..][j]) {
          assert s[1..][i] == s[i + 1] && s[1..][j] == s[j + 1];
        }
      }
      SortOfSorted(s[1..], le);
      assert s == [s[0]] + s[1..];
    }
  }

  /** Applies `f` to every element, keeping the order. */
  function Map<A, B>(s: seq<A>, f: A -> B): (r: seq<B>)
    ensures |r| == |s|
    ensures forall i :: 0 <= i < |s| ==> r[i] == f(s[i])
  {
    seq(|s|, i requires 0 <= i < |s| => f(s[i]))
  }

  /** Mapping two rearrangements of one list gives two rearrangements of
      one list. */
  lemma {:induction false} MapPermutation<A, B>(a: seq<A>, b: seq<A>, f: A -> B)
    requires multiset(a) == multiset(b)
    ensures multiset(Map(a, f)) == multiset(Map(b, f))
    decreases |a|
  {
    if |a| > 0 {
      assert a[0] in multiset(b);
      var k :| 0 <= k < |b| && b[k] == a[0];
      var a', b' := a[1..], b[..k] + b[k + 1..];
      MultisetTail(a);
      MultisetRemove(b, k);
      MultisetCancel(multiset(a'), multiset(b'), a[0]);
      MapPermutation(a', b', f);
      MapTail(a, f);
      MapRemove(b, k, f);
    }
  }

  lemma MultisetCancel<A>(x: multiset<A>, y: multiset<A>, e: A)
    requires x + multiset{e} == y + multiset{e}
    ensures x == y
  {
    assert forall z :: x[z] == (x + multiset{e})[z] - multiset{e}[z];
  }

  lemma MultisetTail<A>(b: seq<A>)
    requires |b| > 0
    ensures multiset(b) == multiset(b[1..]) + multiset{b[0]}
  {
    assert b == [b[0]] + b[1..];
  }

  /** Taking out the element at `k` takes one copy of it out of the
      multiset. */
  lemma MultisetRemove<A>(b: seq<A>, k: int)
    requires 0 <= k < |b|
    ensures multiset(b) == multiset(b[..k] + b[k + 1..]) + multiset{b[k]}
  {
    assert b == b[..k] + [b[k]] + b[k + 1..];
  }

  lemma MapTail<A, B>(b: seq<A>, f: A -> B)
    requires |b| > 0
    ensures multiset(Map(b, f)) == multiset(Map(b[1..], f)) + multiset{f(b[0])}
  {
    assert Map(b, f) == [f(b[0])] + Map(b[1..], f);
  }

  /** Mapping commutes with taking out the element at `k`. */
  lemma MapRemove<A, B>(b: seq<A>, k: int, f: A -> B)
    requires 0 <= k < |b|
    ensures multiset(Map(b, f)) == multiset(Map(b[..k] + b[k + 1..], f)) + multiset{f(b[k])}
  {
    var front, back := Map(b[..k], f), Map(b[k + 1..], f);
    assert Map(b, f) == front + [f(b[k])] + back;
    assert Map(b[..k] + b[k + 1..], f) == front + back;
  }
}
