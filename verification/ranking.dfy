/**
 * Ordering helpers: a two-part sort key and the "ORDER BY ... LIMIT n" selection
 * used both for messages (priority, then age) and for queues (watermark).
 */
module Ranking {

  /** A sort key compared lexicographically: `major` first, then `minor`. */
  datatype Rank = Rank(major: int, minor: int)

  /** `a` sorts no later than `b`. */
  predicate RankLe(a: Rank, b: Rank) {
    a.major < b.major || (a.major == b.major && a.minor <= b.minor)
  }

  /** Every earlier element sorts no later than every later one. */
  predicate SortedBy<T>(s: seq<T>, key: T -> Rank) {
    forall i, j :: 0 <= i < j < |s| ==> RankLe(key(s[i]), key(s[j]))
  }

  /** The position of the first element with the least key. */
  function MinIndex<T>(s: seq<T>, key: T -> Rank): (i: nat)
    requires |s| > 0
    ensures i < |s|
    ensures forall j :: 0 <= j < |s| ==> RankLe(key(s[i]), key(s[j]))
    ensures forall j :: 0 <= j < i ==> !RankLe(key(s[j]), key(s[i]))
  {
    if |s| == 1 then 0
    else
      var k := MinIndex(s[1..], key) + 1;
      if RankLe(key(s[0]), key(s[k])) then 0 else k
  }

  /** `s` without its element at position `i`. */
  function RemoveAt<T>(s: seq<T>, i: nat): (r: seq<T>)
    requires i < |s|
    ensures |r| == |s| - 1
    ensures multiset(r) == multiset(s) - multiset{s[i]}
  {
    assert s == s[..i] + [s[i]] + s[i+1..];
    s[..i] + s[i+1..]
  }

  /**
   * The first `n` elements of `s` in key order (all of them when `s` is
   * shorter), as an SQL "ORDER BY key LIMIT n" returns them. Among equal keys
   * the element that comes first in `s` is taken first.
   */
  function TopN<T>(s: seq<T>, n: nat, key: T -> Rank): (r: seq<T>)
    ensures |r| == if n < |s| then n else |s|
    ensures multiset(r) <= multiset(s)
    ensures n >= |s| ==> multiset(r) == multiset(s)
    ensures SortedBy(r, key)
    ensures forall x, y :: x in r && y in multiset(s) - multiset(r) ==> RankLe(key(x), key(y))
    decreases n
  {
    if n == 0 || |s| == 0 then []
    else
      var i := MinIndex(s, key);
      var rest := TopN(RemoveAt(s, i), n - 1, key);
      PrependMinimum(s, i, rest, key);
      [s[i]] + rest
  }

  /** Putting the least element of `s` in front of a top selection of the rest keeps it a top selection. */
  lemma PrependMinimum<T>(s: seq<T>, i: nat, rest: seq<T>, key: T -> Rank)
    requires i < |s|
    requires forall j :: 0 <= j < |s| ==> RankLe(key(s[i]), key(s[j]))
    requires multiset(rest) <= multiset(RemoveAt(s, i))
    requires SortedBy(rest, key)
    requires forall x, y :: x in rest && y in multiset(RemoveAt(s, i)) - multiset(rest) ==> RankLe(key(x), key(y))
    ensures multiset([s[i]] + rest) <= multiset(s)
    ensures multiset(rest) == multiset(RemoveAt(s, i)) ==> multiset([s[i]] + rest) == multiset(s)
    ensures SortedBy([s[i]] + rest, key)
    ensures forall x, y :: x in [s[i]] + rest && y in multiset(s) - multiset([s[i]] + rest) ==> RankLe(key(x), key(y))
  {
    var r := [s[i]] + rest;
    var m := multiset(RemoveAt(s, i));
    assert multiset(r) == multiset{s[i]} + multiset(rest);
    assert multiset(s) == m + multiset{s[i]};
    PrependMinimumSorted(s, i, rest, key);
    PrependMinimumTop(s, i, rest, key);
  }

  lemma PrependMinimumSorted<T>(s: seq<T>, i: nat, rest: seq<T>, key: T -> Rank)
    requires i < |s|
    requires forall j :: 0 <= j < |s| ==> RankLe(key(s[i]), key(s[j]))
    requires multiset(rest) <= multiset(RemoveAt(s, i))
    requires SortedBy(rest, key)
    ensures SortedBy([s[i]] + rest, key)
  {
    var r := [s[i]] + rest;
    forall a, b | 0 <= a < b < |r|
      ensures RankLe(key(r[a]), key(r[b]))
    {
      if a > 0 {
        assert r[a] == rest[a - 1] && r[b] == rest[b - 1];
      } else {
        assert r[b] == rest[b - 1];
        assert r[b] in multiset(RemoveAt(s, i));
        assert r[b] in s;
        var j :| 0 <= j < |s| && s[j] == r[b];
      }
    }
  }

  lemma PrependMinimumTop<T>(s: seq<T>, i: nat, rest: seq<T>, key: T -> Rank)
    requires i < |s|
    requires forall j :: 0 <= j < |s| ==> RankLe(key(s[i]), key(s[j]))
    requires forall x, y :: x in rest && y in multiset(RemoveAt(s, i)) - multiset(rest) ==> RankLe(key(x), key(y))
    ensures forall x, y :: x in [s[i]] + rest && y in multiset(s) - multiset([s[i]] + rest) ==> RankLe(key(x), key(y))
  {
    var r := [s[i]] + rest;
    var m := multiset(RemoveAt(s, i));
    assert multiset(r) == multiset{s[i]} + multiset(rest);
    assert multiset(s) == m + multiset{s[i]};
    assert multiset(s) - multiset(r) == m - multiset(rest);
    forall x, y | x in r && y in multiset(s) - multiset(r)
      ensures RankLe(key(x), key(y))
    {
      if x != s[i] {
        assert x in rest;
      } else {
        assert y in s;
        var j :| 0 <= j < |s| && s[j] == y;
      }
    }
  }

  /** Whatever the limit, the selection only draws elements of `s`. */
  lemma TopNDrawsFrom<T>(s: seq<T>, n: nat, key: T -> Rank, x: T)
    requires x in TopN(s, n, key)
    ensures x in s
  {
    var r := TopN(s, n, key);
    assert x in multiset(r);
  }

  /**
   * The selection is "top n": an element of `s` left out ranks no earlier than
   * anything selected, and nothing is left out when fewer than `n` were taken.
   */
  lemma TopNIsTop<T>(s: seq<T>, n: nat, key: T -> Rank, x: T, y: T)
    requires x in TopN(s, n, key) && y in s && y !in TopN(s, n, key)
    ensures RankLe(key(x), key(y))
  {
    var r := TopN(s, n, key);
    assert multiset(r)[y] == 0;
    assert y in multiset(s) - multiset(r);
  }

  /** A selection shorter than its limit took every element. */
  lemma TopNShortTakesAll<T>(s: seq<T>, n: nat, key: T -> Rank, y: T)
    requires |TopN(s, n, key)| < n && y in s
    ensures y in TopN(s, n, key)
  {
    var r := TopN(s, n, key);
    assert multiset(r) == multiset(s);
    assert y in multiset(s);
  }

  /** A sorted sequence's tail is sorted and ranks no earlier than its head. */
  lemma SortedTail<T>(s: seq<T>, key: T -> Rank)
    requires |s| > 0 && SortedBy(s, key)
    ensures SortedBy(s[1..], key)
    ensures forall i :: 0 <= i < |s[1..]| ==> RankLe(key(s[0]), key(s[1..][i]))
  {
    var t := s[1..];
    forall i | 0 <= i < |t| ensures t[i] == s[i + 1] && RankLe(key(s[0]), key(t[i])) {
    }
    forall i, j | 0 <= i < j < |t| ensures RankLe(key(t[i]), key(t[j])) {
      assert t[i] == s[i + 1] && t[j] == s[j + 1];
    }
  }

  /** An element ranking no later than all of a sorted sequence can go in front of it. */
  lemma PrependSorted<T>(x: T, s: seq<T>, key: T -> Rank)
    requires SortedBy(s, key)
    requires forall i :: 0 <= i < |s| ==> RankLe(key(x), key(s[i]))
    ensures SortedBy([x] + s, key)
  {
    var r := [x] + s;
    forall a, b | 0 <= a < b < |r|
      ensures RankLe(key(r[a]), key(r[b]))
    {
      assert r[b] == s[b - 1];
      if a > 0 {
        assert r[a] == s[a - 1];
      }
    }
  }
}
