/** The ordering half of the two ORDER BY clauses (title ascending, created_at descending),
    as a stable insertion sort over a total preorder. */
module Sorting {

  ghost predicate IsTotalPreorder<T(!new)>(le: (T, T) -> bool) {
    (forall a, b :: le(a, b) || le(b, a)) &&
    (forall a, b, c :: le(a, b) && le(b, c) ==> le(a, c))
  }

  predicate SortedBy<T>(s: seq<T>, le: (T, T) -> bool) {
    forall i, j :: 0 <= i < j < |s| ==> le(s[i], s[j])
  }

  /** Inserts x before the first element it is `le` to. */
  function Insert<T(!new)>(x: T, s: seq<T>, le: (T, T) -> bool): (r: seq<T>)
    requires IsTotalPreorder(le) && SortedBy(s, le)
    ensures SortedBy(r, le)
    ensures multiset(r) == multiset(s) + multiset{x}
    decreases |s|
  {
    if s == [] then [x]
    else if le(x, s[0]) then [x] + s
    else
      var tail := Insert(x, s[1..], le);
      assert s == [s[0]] + s[1..];
      HeadBelowAll(s[0], tail, x, s[1..], le);
      [s[0]] + tail
  }

  /** If h is below every element of `rest` and below x, it is below every element of a
      sequence made of `rest` and x. */
  lemma HeadBelowAll<T(!new)>(h: T, tail: seq<T>, x: T, rest: seq<T>, le: (T, T) -> bool)
    requires SortedBy(tail, le) && multiset(tail) == multiset(rest) + multiset{x}
    requires le(h, x) && forall y :: y in rest ==> le(h, y)
    ensures SortedBy([h] + tail, le)
  {
    forall k | 0 <= k < |tail| ensures le(h, tail[k]) {
      assert tail[k] in multiset(tail);
      if tail[k] != x { assert tail[k] in multiset(rest); }
    }
  }

  function Sort<T(!new)>(s: seq<T>, le: (T, T) -> bool): (r: seq<T>)
    requires IsTotalPreorder(le)
    ensures SortedBy(r, le)
    ensures multiset(r) == multiset(s)
    decreases |s|
  {
    if s == [] then []
    else
      assert s == [s[0]] + s[1..];
      Insert(s[0], Sort(s[1..], le), le)
  }

  /** ORDER BY ... LIMIT k: the first k rows of `s` in the order `le`, each row at most as often as
      it occurs in `s`. Fewer than k rows come back whole; otherwise every row left out is at least
      as large as every row kept. */
  function OrderByLimit<T(!new)>(s: seq<T>, le: (T, T) -> bool, k: nat): (r: seq<T>)
    requires IsTotalPreorder(le)
    ensures |r| == if |s| < k then |s| else k
    ensures SortedBy(r, le)
    ensures forall x :: x in r ==> x in s
    ensures multiset(r) <= multiset(s)
    ensures |s| <= k ==> multiset(r) == multiset(s)
    ensures forall x, y :: x in r && y in s && y !in r ==> le(x, y)
  {
    var sorted := Sort(s, le);
    var n := if |s| < k then |s| else k;
    assert |sorted| == |s| by {
      assert |multiset(sorted)| == |multiset(s)|;
    }
    PrefixIsSmallest(sorted, n, le);
    SameElements(sorted, s);
    assert forall y :: y in sorted && y !in sorted[..n] ==> y in sorted[n..];
    sorted[..n]
  }

  lemma SameElements<T>(a: seq<T>, b: seq<T>)
    requires multiset(a) == multiset(b)
    ensures forall x :: x in a <==> x in b
  {
    forall x ensures x in a <==> x in b {
      assert x in a <==> x in multiset(a);
      assert x in b <==> x in multiset(b);
    }
  }

  /** Taking a prefix of a sorted sequence keeps the smallest elements: everything left out
      is at least as large as everything kept. */
  lemma PrefixIsSmallest<T>(s: seq<T>, n: nat, le: (T, T) -> bool)
    requires SortedBy(s, le) && n <= |s|
    ensures SortedBy(s[..n], le)
    ensures multiset(s[..n]) + multiset(s[n..]) == multiset(s)
    ensures forall x, y :: x in s[..n] && y in s[n..] ==> le(x, y)
  {
    assert s == s[..n] + s[n..];
    forall x, y | x in s[..n] && y in s[n..] ensures le(x, y) {
      var i :| 0 <= i < n && s[..n][i] == x;
      var j :| 0 <= j < |s| - n && s[n..][j] == y;
      assert s[i] == x && s[n + j] == y;
    }
  }
}
