/** A stable insertion sort over sequences, parameterised by a "comes no
    later than" comparator, standing in for JavaScript's `Array.sort` with a
    comparator and for the store's `order(...)` clause. */
module Sorting {

  /** `le` is total (any two elements are comparable) and transitive. */
  ghost predicate TotalPreorder<T(!new)>(le: (T, T) -> bool) {
    && (forall a, b :: le(a, b) || le(b, a))
    && (forall a, b, c :: le(a, b) && le(b, c) ==> le(a, c))
  }

  ghost predicate SortedBy<T>(s: seq<T>, le: (T, T) -> bool) {
    forall i, j :: 0 <= i < j < |s| ==> le(s[i], s[j])
  }

  /** Inserts `x` before the first element it comes no later than. */
  function Insert<T(!new)>(x: T, s: seq<T>, le: (T, T) -> bool): (r: seq<T>)
    requires TotalPreorder(le)
    requires SortedBy(s, le)
    ensures SortedBy(r, le)
    ensures multiset(r) == multiset(s) + multiset{x}
    decreases |s|
  {
    if |s| == 0 then [x]
    else if le(x, s[0]) then [x] + s
    else
      var t := Insert(x, s[1..], le);
      HeadPrecedesInsert(x, s, t, le);
      [s[0]] + t
  }

  lemma HeadPrecedesInsert<T(!new)>(x: T, s: seq<T>, t: seq<T>, le: (T, T) -> bool)
    requires TotalPreorder(le)
    requires SortedBy(s, le) && |s| > 0 && !le(x, s[0])
    requires SortedBy(t, le)
    requires multiset(t) == multiset(s[1..]) + multiset{x}
    ensures SortedBy([s[0]] + t, le)
    ensures multiset([s[0]] + t) == multiset(s) + multiset{x}
  {
    assert s == [s[0]] + s[1..];
    forall j | 0 <= j < |t|
      ensures le(s[0], t[j])
    {
      assert t[j] in multiset(t);
      if t[j] != x {
        assert t[j] in multiset(s[1..]);
        var k :| 0 <= k < |s[1..]| && s[1..][k] == t[j];
        assert s[k + 1] == t[j];
      }
    }
  }

  /** Sorts `s` by `le`; among equivalent elements the original order is kept. */
  function SortBy<T(!new)>(s: seq<T>, le: (T, T) -> bool): (r: seq<T>)
    requires TotalPreorder(le)
    ensures SortedBy(r, le)
    ensures multiset(r) == multiset(s)
    ensures |r| == |s|
    decreases |s|
  {
    if |s| == 0 then []
    else
      assert s == [s[0]] + s[1..];
      var r := Insert(s[0], SortBy(s[1..], le), le);
      assert |r| == |multiset(r)|;
      r
  }

  /** The head of a sorted permutation comes no later than any element. */
  lemma SortedHeadIsLeast<T(!new)>(s: seq<T>, r: seq<T>, le: (T, T) -> bool)
    requires TotalPreorder(le)
    requires SortedBy(r, le) && multiset(r) == multiset(s) && |r| > 0
    ensures forall y :: y in s ==> le(r[0], y)
  {
    forall y | y in s
      ensures le(r[0], y)
    {
      assert y in multiset(r);
      var j :| 0 <= j < |r| && r[j] == y;
      if j == 0 {
        assert le(y, y) || le(y, y);
      }
    }
  }

  /** In a sorted permutation cut at `k`, any element of `s` that is not in
      the prefix comes no earlier than every element of the prefix. */
  lemma SortedPrefixIsLeast<T(!new)>(s: seq<T>, r: seq<T>, k: nat, le: (T, T) -> bool)
    requires SortedBy(r, le) && multiset(r) == multiset(s) && k <= |r|
    ensures forall y, w :: y in s && y !in r[..k] && w in r[..k] ==> le(w, y)
  {
    forall y, w | y in s && y !in r[..k] && w in r[..k]
      ensures le(w, y)
    {
      assert y in multiset(r);
      var j :| 0 <= j < |r| && r[j] == y;
      var i :| 0 <= i < k && r[..k][i] == w;
    }
  }

  /** A permutation has the same members. */
  lemma PermutationKeepsMembers<T>(s: seq<T>, r: seq<T>)
    requires multiset(r) == multiset(s)
    ensures forall x :: x in r <==> x in s
  {
    forall x
      ensures x in r <==> x in s
    {
      assert x in r <==> x in multiset(r);
      assert x in s <==> x in multiset(s);
    }
  }
}
