/**
 * A stable insertion sort by a real-valued key. It models `np.argsort` followed by
 * re-indexing, and Python's stable `list.sort`.
 */
module Sorting {

  predicate SortedBy<T>(s: seq<T>, key: T -> real) {
    forall i, j :: 0 <= i < j < |s| ==> key(s[i]) <= key(s[j])
  }

  /** Ties ordered by `rank`: the order a stable sort leaves equal keys in. */
  predicate SortedThenRanked<T>(s: seq<T>, key: T -> real, rank: T -> int) {
    forall i, j :: 0 <= i < j < |s| ==>
      key(s[i]) < key(s[j]) || (key(s[i]) == key(s[j]) && rank(s[i]) < rank(s[j]))
  }

  predicate RankIncreasing<T>(s: seq<T>, rank: T -> int) {
    forall i, j :: 0 <= i < j < |s| ==> rank(s[i]) < rank(s[j])
  }

  /** Places `x` in front of the first element whose key is not smaller. */
  function Insert<T(==)>(x: T, t: seq<T>, key: T -> real): (r: seq<T>)
    requires SortedBy(t, key)
    ensures |r| == |t| + 1
    ensures multiset(r) == multiset(t) + multiset{x}
    ensures SortedBy(r, key)
    ensures r[0] == x || (|t| > 0 && r[0] == t[0])
    decreases |t|
  {
    if |t| == 0 || key(x) <= key(t[0]) then
      [x] + t
    else
      TailSorted(t, key);
      var rest := Insert(x, t[1..], key);
      assert t == [t[0]] + t[1..];
      ConsSorted(t[0], rest, key);
      [t[0]] + rest
  }

  lemma TailSorted<T>(t: seq<T>, key: T -> real)
    requires SortedBy(t, key) && |t| > 0
    ensures SortedBy(t[1..], key)
  {
    forall i, j | 0 <= i < j < |t| - 1
      ensures key(t[1..][i]) <= key(t[1..][j])
    {
      assert t[1..][i] == t[i + 1] && t[1..][j] == t[j + 1];
    }
  }

  lemma ConsSorted<T>(a: T, rest: seq<T>, key: T -> real)
    requires SortedBy(rest, key) && (|rest| > 0 ==> key(a) <= key(rest[0]))
    ensures SortedBy([a] + rest, key)
  {
    var r := [a] + rest;
    forall i, j | 0 <= i < j < |r|
      ensures key(r[i]) <= key(r[j])
    {
      assert r[j] == rest[j - 1];
      if i > 0 {
        assert r[i] == rest[i - 1];
      }
    }
  }

  function SortBy<T(==)>(s: seq<T>, key: T -> real): (r: seq<T>)
    ensures |r| == |s|
    ensures multiset(r) == multiset(s)
    ensures SortedBy(r, key)
    decreases |s|
  {
    if |s| == 0 then []
    else
      assert s == [s[0]] + s[1..];
      Insert(s[0], SortBy(s[1..], key), key)
  }

  /** `a` may precede each element of `rest` in a key-then-rank order. */
  predicate Precedes<T>(a: T, rest: seq<T>, key: T -> real, rank: T -> int) {
    forall j :: 0 <= j < |rest| ==>
      key(a) < key(rest[j]) || (key(a) == key(rest[j]) && rank(a) < rank(rest[j]))
  }

  lemma ConsRanked<T>(a: T, rest: seq<T>, key: T -> real, rank: T -> int)
    requires SortedThenRanked(rest, key, rank) && Precedes(a, rest, key, rank)
    ensures SortedThenRanked([a] + rest, key, rank)
  {
    var r := [a] + rest;
    forall i, j | 0 <= i < j < |r|
      ensures key(r[i]) < key(r[j]) || (key(r[i]) == key(r[j]) && rank(r[i]) < rank(r[j]))
    {
      assert r[j] == rest[j - 1];
      if i > 0 {
        assert r[i] == rest[i - 1];
      }
    }
  }

  lemma TailRanked<T>(t: seq<T>, key: T -> real, rank: T -> int)
    requires SortedThenRanked(t, key, rank) && |t| > 0
    ensures SortedThenRanked(t[1..], key, rank)
  {
    forall i, j | 0 <= i < j < |t| - 1
      ensures key(t[1..][i]) < key(t[1..][j]) || (key(t[1..][i]) == key(t[1..][j]) && rank(t[1..][i]) < rank(t[1..][j]))
    {
      assert t[1..][i] == t[i + 1] && t[1..][j] == t[j + 1];
    }
  }

  lemma {:induction false} InsertKeepsTieOrder<T>(x: T, t: seq<T>, key: T -> real, rank: T -> int)
    requires SortedBy(t, key) && SortedThenRanked(t, key, rank)
    requires forall i :: 0 <= i < |t| ==> rank(x) < rank(t[i])
    ensures SortedThenRanked(Insert(x, t, key), key, rank)
    decreases |t|
  {
    if |t| == 0 || key(x) <= key(t[0]) {
      assert Precedes(x, t, key, rank) by {
        forall j | 0 <= j < |t|
          ensures key(x) < key(t[j]) || (key(x) == key(t[j]) && rank(x) < rank(t[j]))
        {
          assert key(t[0]) <= key(t[j]);
        }
      }
      ConsRanked(x, t, key, rank);
    } else {
      TailSorted(t, key);
      TailRanked(t, key, rank);
      assert forall i :: 0 <= i < |t[1..]| ==> rank(x) < rank(t[1..][i]) by {
        forall i | 0 <= i < |t[1..]|
          ensures rank(x) < rank(t[1..][i])
        {
          assert t[1..][i] == t[i + 1];
        }
      }
      InsertKeepsTieOrder(x, t[1..], key, rank);
      var rest := Insert(x, t[1..], key);
      assert Insert(x, t, key) == [t[0]] + rest;
      assert Precedes(t[0], rest, key, rank) by {
        forall j | 0 <= j < |rest|
          ensures key(t[0]) < key(rest[j]) || (key(t[0]) == key(rest[j]) && rank(t[0]) < rank(rest[j]))
        {
          assert rest[j] in multiset(rest);
          if rest[j] != x {
            assert rest[j] in multiset(t[1..]);
            var m :| 0 <= m < |t[1..]| && t[1..][m] == rest[j];
            assert rest[j] == t[m + 1];
          }
        }
      }
      ConsRanked(t[0], rest, key, rank);
    }
  }

  /** Stability: elements with equal keys keep their input order. */
  lemma {:induction false} SortByIsStable<T>(s: seq<T>, key: T -> real, rank: T -> int)
    requires RankIncreasing(s, rank)
    ensures SortedThenRanked(SortBy(s, key), key, rank)
    decreases |s|
  {
    if |s| > 0 {
      var tail := SortBy(s[1..], key);
      SortByIsStable(s[1..], key, rank);
      forall i | 0 <= i < |tail|
        ensures rank(s[0]) < rank(tail[i])
      {
        assert tail[i] in multiset(s[1..]);
        var m :| 0 <= m < |s[1..]| && s[1..][m] == tail[i];
        assert tail[i] == s[m + 1];
      }
      InsertKeepsTieOrder(s[0], tail, key, rank);
    }
  }

  /** With one key for all elements, sorting leaves the sequence as it is. */
  lemma {:induction false} SortByConstantKey<T>(s: seq<T>, key: T -> real)
    requires forall i :: 0 <= i < |s| ==> key(s[i]) == key(s[0])
    ensures SortBy(s, key) == s
    decreases |s|
  {
    if |s| > 0 {
      assert s == [s[0]] + s[1..];
      SortByConstantKey(s[1..], key);
    }
  }
}
