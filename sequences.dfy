/**
 * The dataframe operations the dashboard applies to its roster, on sequences
 * of rows: a boolean-mask selection (`df[mask]`), a sort by a date column
 * (`sort_values`) and `head(n)`.
 */
module Sequences {
  import opened Dates

  /** The positions of the rows a mask keeps, in increasing order. */
  function MatchIndices<T>(s: seq<T>, keep: T -> bool): (idx: seq<int>)
    ensures forall k :: 0 <= k < |idx| ==> 0 <= idx[k] < |s| && keep(s[idx[k]])
    ensures forall k, l :: 0 <= k < l < |idx| ==> idx[k] < idx[l]
    ensures forall i :: 0 <= i < |s| && keep(s[i]) ==> i in idx
  {
    if s == [] then []
    else
      var front := s[..|s| - 1];
      assert forall i :: 0 <= i < |front| ==> front[i] == s[i];
      MatchIndices(front, keep) + (if keep(s[|s| - 1]) then [|s| - 1] else [])
  }

  /** `df[mask]`: the rows the mask keeps, in their original order. */
  function Filter<T>(s: seq<T>, keep: T -> bool): (r: seq<T>)
    ensures forall x :: x in r ==> x in s && keep(x)
  {
    if s == [] then []
    else Filter(s[..|s| - 1], keep) + (if keep(s[|s| - 1]) then [s[|s| - 1]] else [])
  }

  /** The filtered rows are exactly the rows at the kept positions, one for
      one and in order. */
  lemma {:induction false} FilterPicksMatches<T>(s: seq<T>, keep: T -> bool)
    ensures |Filter(s, keep)| == |MatchIndices(s, keep)|
    ensures forall k :: 0 <= k < |Filter(s, keep)| ==>
      Filter(s, keep)[k] == s[MatchIndices(s, keep)[k]]
  {
    if s != [] {
      var front := s[..|s| - 1];
      FilterPicksMatches(front, keep);
      assert forall i :: 0 <= i < |front| ==> front[i] == s[i];
    }
  }

  /** Whether two masks select the same rows depends only on the mask's value
      at each position. */
  lemma {:induction false} MatchIndicesPointwise<T, U>(s: seq<T>, keep: T -> bool, t: seq<U>, keep': U -> bool)
    requires |s| == |t|
    requires forall i :: 0 <= i < |s| ==> keep(s[i]) == keep'(t[i])
    ensures MatchIndices(s, keep) == MatchIndices(t, keep')
  {
    if s != [] {
      MatchIndicesPointwise(s[..|s| - 1], keep, t[..|t| - 1], keep');
    }
  }

  predicate SortedBy<T>(s: seq<T>, key: T -> Date) {
    forall i, j :: 0 <= i < j < |s| ==> DateLe(key(s[i]), key(s[j]))
  }

  /** Places x in front of the first row whose key is not below x's. */
  function Insert<T>(x: T, s: seq<T>, key: T -> Date): (r: seq<T>)
    ensures multiset(r) == multiset(s) + multiset{x}
  {
    if s == [] then [x]
    else if DateLe(key(x), key(s[0])) then [x] + s
    else
      assert s == [s[0]] + s[1..];
      [s[0]] + Insert(x, s[1..], key)
  }

  lemma {:induction false} InsertKeepsSorted<T>(x: T, s: seq<T>, key: T -> Date)
    requires SortedBy(s, key)
    ensures SortedBy(Insert(x, s, key), key)
  {
    if s != [] && !DateLe(key(x), key(s[0])) {
      InsertKeepsSorted(x, s[1..], key);
      var rest := Insert(x, s[1..], key);
      forall j | 0 <= j < |rest|
        ensures DateLe(key(s[0]), key(rest[j]))
      {
        assert rest[j] in multiset(rest);
        if rest[j] != x {
          assert rest[j] in multiset(s[1..]);
          var i :| 0 <= i < |s[1..]| && s[1..][i] == rest[j];
          assert s[i + 1] == rest[j];
        }
      }
    }
  }

  /** `sort_values(column)`: the same rows, ordered by the column's date. */
  function SortBy<T>(s: seq<T>, key: T -> Date): (r: seq<T>)
    ensures SortedBy(r, key)
    ensures multiset(r) == multiset(s)
    ensures |r| == |s|
  {
    if s == [] then []
    else
      assert s == [s[0]] + s[1..];
      var sortedRest := SortBy(s[1..], key);
      InsertKeepsSorted(s[0], sortedRest, key);
      Insert(s[0], sortedRest, key)
  }

  function Min(a: int, b: int): int {
    if a <= b then a else b
  }

  /** `head(n)`: the first n rows, or all of them when there are fewer. */
  function Take<T>(s: seq<T>, n: nat): seq<T> {
    s[..Min(n, |s|)]
  }

  /** The first n rows of a sorted sequence are its n smallest: none of the
      rows left out comes before a row taken. */
  lemma {:induction false} TakeOfSortedIsSmallest<T>(s: seq<T>, n: nat, key: T -> Date)
    requires SortedBy(s, key)
    ensures |Take(s, n)| == Min(n, |s|)
    ensures SortedBy(Take(s, n), key)
    ensures multiset(Take(s, n)) <= multiset(s)
    ensures forall x, y :: x in multiset(Take(s, n)) && y in multiset(s) - multiset(Take(s, n)) ==>
      DateLe(key(x), key(y))
  {
    var k := Min(n, |s|);
    assert s == s[..k] + s[k..];
    assert multiset(s) - multiset(s[..k]) == multiset(s[k..]);
    forall x, y | x in multiset(s[..k]) && y in multiset(s) - multiset(s[..k])
      ensures DateLe(key(x), key(y))
    {
      assert x in s[..k];
      assert y in s[k..];
      var i :| 0 <= i < k && s[i] == x;
      var j :| k <= j < |s| && s[j] == y;
    }
  }
}
