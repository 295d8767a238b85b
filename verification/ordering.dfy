/** The culture-sensitive string order the mod sorts with (`List.Sort`,
    `OrderBy`), kept abstract: a comparison `le` assumed to be a total order. */
module Ordering {

  /** `le` is reflexive, antisymmetric, transitive and total. */
  ghost predicate TotalOrder<T(!new)>(le: (T, T) -> bool) {
    && (forall a :: le(a, a))
    && (forall a, b :: le(a, b) && le(b, a) ==> a == b)
    && (forall a, b, c :: le(a, b) && le(b, c) ==> le(a, c))
    && (forall a, b :: le(a, b) || le(b, a))
  }

  /** The element a sort under `le` would put first. */
  function MinBy<T>(le: (T, T) -> bool, s: seq<T>): (m: T)
    requires |s| >= 1
    ensures m in s
    decreases |s|
  {
    if |s| == 1 then s[0]
    else
      var rest := MinBy(le, s[1..]);
      if le(s[0], rest) then s[0] else rest
  }

  /** The element chosen is below every element of the sequence. */
  lemma {:induction false} MinByIsLeast<T(!new)>(le: (T, T) -> bool, s: seq<T>)
    requires TotalOrder(le)
    requires |s| >= 1
    ensures forall x :: x in s ==> le(MinBy(le, s), x)
    decreases |s|
  {
    if |s| > 1 {
      MinByIsLeast(le, s[1..]);
      forall x | x in s
        ensures le(MinBy(le, s), x)
      {
        if x != s[0] {
          assert x in s[1..];
        }
      }
    }
  }

  /** The least element is unique, so the choice depends only on which
      elements are present, never on their order. */
  lemma MinByUnique<T(!new)>(le: (T, T) -> bool, s: seq<T>, m: T)
    requires TotalOrder(le)
    requires m in s
    requires forall x :: x in s ==> le(m, x)
    ensures MinBy(le, s) == m
  {
    MinByIsLeast(le, s);
  }

  lemma MinBySameElements<T(!new)>(le: (T, T) -> bool, s: seq<T>, t: seq<T>)
    requires TotalOrder(le)
    requires |s| >= 1
    requires forall x :: x in s <==> x in t
    ensures |t| >= 1 && MinBy(le, s) == MinBy(le, t)
  {
    assert s[0] in t;
    MinByIsLeast(le, s);
    MinByUnique(le, t, MinBy(le, s));
  }

  /** Every element is below every later one. */
  ghost predicate Sorted<T>(le: (T, T) -> bool, s: seq<T>) {
    forall i, j :: 0 <= i < j < |s| ==> le(s[i], s[j])
  }

  /** Places `x` before the first element it is below. */
  function Insert<T>(le: (T, T) -> bool, x: T, s: seq<T>): (r: seq<T>)
    ensures multiset(r) == multiset(s) + multiset{x}
    ensures |r| == |s| + 1
  {
    if |s| == 0 then [x]
    else if le(x, s[0]) then [x] + s
    else
      assert s == [s[0]] + s[1..];
      [s[0]] + Insert(le, x, s[1..])
  }

  /** A stable insertion sort: the order `OrderBy` produces. On keys that
      are pairwise distinct under `le`, any sort (`List.Sort` included)
      gives the same list; see `SortedUnique`. */
  function SortBy<T>(le: (T, T) -> bool, s: seq<T>): (r: seq<T>)
    ensures multiset(r) == multiset(s)
    ensures |r| == |s|
  {
    if |s| == 0 then []
    else
      assert s == [s[0]] + s[1..];
      Insert(le, s[0], SortBy(le, s[1..]))
  }

  lemma {:induction false} InsertSorted<T(!new)>(le: (T, T) -> bool, x: T, s: seq<T>)
    requires TotalOrder(le)
    requires Sorted(le, s)
    ensures Sorted(le, Insert(le, x, s))
    decreases |s|
  {
    if |s| > 0 && !le(x, s[0]) {
      InsertSorted(le, x, s[1..]);
      var t := Insert(le, x, s[1..]);
      var r := [s[0]] + t;
      forall i, j | 0 <= i < j < |r|
        ensures le(r[i], r[j])
      {
        if i == 0 {
          assert r[j] in multiset(t);
          assert r[j] == x || r[j] in multiset(s[1..]);
          if r[j] != x {
            var k :| 0 <= k < |s[1..]| && s[1..][k] == r[j];
            assert s[k + 1] == r[j];
          }
        }
      }
    }
  }

  /** The sort puts its input in order. */
  lemma {:induction false} SortBySorted<T(!new)>(le: (T, T) -> bool, s: seq<T>)
    requires TotalOrder(le)
    ensures Sorted(le, SortBy(le, s))
    decreases |s|
  {
    if |s| > 0 {
      SortBySorted(le, s[1..]);
      InsertSorted(le, s[0], SortBy(le, s[1..]));
    }
  }

  lemma TailMultiset<T>(a: seq<T>)
    requires |a| > 0
    ensures multiset(a[1..]) == multiset(a) - multiset{a[0]}
  {
    assert a == [a[0]] + a[1..];
  }

  lemma SortedTail<T>(le: (T, T) -> bool, a: seq<T>)
    requires |a| > 0 && Sorted(le, a)
    ensures Sorted(le, a[1..])
  {
    assert forall i :: 0 <= i < |a| - 1 ==> a[1..][i] == a[i + 1];
  }

  /** Two sorted arrangements of the same elements are identical. */
  lemma {:induction false} SortedUnique<T(!new)>(le: (T, T) -> bool, a: seq<T>, b: seq<T>)
    requires TotalOrder(le)
    requires Sorted(le, a) && Sorted(le, b)
    requires multiset(a) == multiset(b)
    ensures a == b
    decreases |a|
  {
    assert |a| == |multiset(a)| == |b|;
    if |a| > 0 {
      assert a[0] in multiset(b);
      assert b[0] in multiset(a);
      var i :| 0 <= i < |b| && b[i] == a[0];
      var j :| 0 <= j < |a| && a[j] == b[0];
      assert le(b[0], a[0]) by {
        if i > 0 { assert le(b[0], b[i]); }
      }
      assert le(a[0], b[0]) by {
        if j > 0 { assert le(a[0], a[j]); }
      }
      assert a[0] == b[0];
      TailMultiset(a);
      TailMultiset(b);
      SortedTail(le, a);
      SortedTail(le, b);
      SortedUnique(le, a[1..], b[1..]);
    }
  }

  /** Sorting depends only on which elements occur, how often: rearranging
      the input never changes the output. */
  lemma SortByCanonical<T(!new)>(le: (T, T) -> bool, s: seq<T>, t: seq<T>)
    requires TotalOrder(le)
    requires multiset(s) == multiset(t)
    ensures SortBy(le, s) == SortBy(le, t)
  {
    SortBySorted(le, s);
    SortBySorted(le, t);
    SortedUnique(le, SortBy(le, s), SortBy(le, t));
  }
}
