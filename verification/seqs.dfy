/** Generic sequence helpers: element-wise mapping, Python-style indexing, sums. */
module Seqs {

  function Map<A, B>(f: A -> B, s: seq<A>): seq<B> {
    seq(|s|, i requires 0 <= i < |s| => f(s[i]))
  }

  /** `[s[i] for i in idx]`. */
  function Pick<T>(s: seq<T>, idx: seq<nat>): (r: seq<T>)
    requires forall q :: 0 <= q < |idx| ==> idx[q] < |s|
    ensures |r| == |idx|
    ensures forall q :: 0 <= q < |idx| ==> r[q] == s[idx[q]]
  {
    seq(|idx|, q requires 0 <= q < |idx| => s[idx[q]])
  }

  function Min(a: int, b: int): int { if a <= b then a else b }

  function Max(a: int, b: int): int { if a <= b then b else a }

  /** Strictly increasing, hence free of repeats. */
  predicate Increasing(s: seq<int>) {
    forall q, q' :: 0 <= q < q' < |s| ==> s[q] < s[q']
  }

  function Sum(s: seq<nat>): nat
    decreases |s|
  {
    if |s| == 0 then 0 else Sum(s[..|s| - 1]) + s[|s| - 1]
  }

  /** Python accepts `xs[i]` for `-len(xs) <= i < len(xs)`; negative `i` counts from the end. */
  predicate PyIndexable(n: nat, i: int) {
    -(n as int) <= i < n
  }

  function PyOffset(n: nat, i: int): (k: nat)
    requires PyIndexable(n, i)
    ensures k < n
    ensures i >= 0 ==> k == i
    ensures i < 0 ==> k == n + i
  {
    if i < 0 then n + i else i
  }

  lemma MapConcat<A, B>(f: A -> B, a: seq<A>, b: seq<A>)
    ensures Map(f, a + b) == Map(f, a) + Map(f, b)
  {
  }

  /** Mapping a sub-multiset gives a sub-multiset of the images. */
  lemma {:induction false} MapSubMultiset<A, B>(f: A -> B, a: seq<A>, b: seq<A>)
    requires multiset(a) <= multiset(b)
    ensures multiset(Map(f, a)) <= multiset(Map(f, b))
    decreases |a|
  {
    if |a| > 0 {
      var x := a[0];
      assert x in multiset(b);
      var j :| 0 <= j < |b| && b[j] == x;
      var rest := b[..j] + b[j + 1..];
      assert b == b[..j] + [x] + b[j + 1..];
      assert multiset(b) == multiset(rest) + multiset{x};
      assert a == [x] + a[1..];
      assert multiset(a) == multiset{x} + multiset(a[1..]);
      forall y ensures multiset(a[1..])[y] <= multiset(rest)[y] {
        assert multiset(a)[y] <= multiset(b)[y];
      }
      assert multiset(a[1..]) <= multiset(rest);
      MapSubMultiset(f, a[1..], rest);
      MapConcat(f, b[..j] + [x], b[j + 1..]);
      MapConcat(f, b[..j], [x]);
      MapConcat(f, b[..j], b[j + 1..]);
      MapConcat(f, [x], a[1..]);
    }
  }

  lemma MapSameMultiset<A, B>(f: A -> B, a: seq<A>, b: seq<A>)
    requires multiset(a) == multiset(b)
    ensures multiset(Map(f, a)) == multiset(Map(f, b))
  {
    MapSubMultiset(f, a, b);
    MapSubMultiset(f, b, a);
  }

  lemma {:induction false} SumConcat(a: seq<nat>, b: seq<nat>)
    ensures Sum(a + b) == Sum(a) + Sum(b)
    decreases |b|
  {
    if |b| > 0 {
      assert (a + b)[..|a + b| - 1] == a + b[..|b| - 1];
      SumConcat(a, b[..|b| - 1]);
    } else {
      assert a + b == a;
    }
  }
}
